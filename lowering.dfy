/**
 * What the three text-assembly backends share: the hierarchical loop labels
 * and the shape of the lines a loop becomes.
 *
 * A loop's label is its parent's label, an underscore, and its 0-based index
 * among the loops of its parent body; top-level loops have the empty parent
 * label. So the loop reached by taking loop number i1 at the top, then loop
 * number i2 inside it, and so on, is labelled `_i1_i2..._ik`. A loop defines
 * `start<label>` before its test and `end<label>` after its back jump.
 */
module Lowering {
  import opened Wrappers
  import opened SeqUtil
  import opened Decimal
  import I = Intermediate
  import A = Ast

  // --------------------------------------------------------- label names

  /** The label of the loop at `path`: each step is `_` followed by the loop's index among its siblings. */
  function PathLabel(path: seq<nat>): string
  {
    if path == [] then "" else "_" + NatToString(path[0]) + PathLabel(path[1..])
  }

  /** Extending a path by one step appends `_<index>`, as a nested loop's label extends its parent's. */
  lemma {:induction false} PathLabelSnoc(path: seq<nat>, i: nat)
    ensures PathLabel(path + [i]) == PathLabel(path) + "_" + NatToString(i)
  {
    if path == [] {
      assert path + [i] == [i];
      assert [i][1..] == [];
    } else {
      assert (path + [i])[1..] == path[1..] + [i];
      PathLabelSnoc(path[1..], i);
    }
  }

  /** The number of decimal digits `s` starts with. */
  function DigitRun(s: string): nat
  {
    if s == [] || !IsDigit(s[0]) then 0 else 1 + DigitRun(s[1..])
  }

  lemma {:induction false} DigitRunOf(d: string, r: string)
    requires AllDigits(d) && (r == [] || !IsDigit(r[0]))
    ensures DigitRun(d + r) == |d|
  {
    if d == [] {
      assert d + r == r;
    } else {
      assert (d + r)[1..] == d[1..] + r;
      DigitRunOf(d[1..], r);
    }
  }

  /** A digit string followed by nothing or by `_` splits in only one way. */
  lemma SegmentsAgree(da: string, ra: string, db: string, rb: string)
    requires AllDigits(da) && (ra == [] || ra[0] == '_')
    requires AllDigits(db) && (rb == [] || rb[0] == '_')
    requires da + ra == db + rb
    ensures da == db && ra == rb
  {
    var s := da + ra;
    DigitRunOf(da, ra);
    DigitRunOf(db, rb);
    assert da == s[..|da|] && db == s[..|db|];
    assert ra == s[|da|..] && rb == s[|db|..];
  }

  /** Different loops have different labels. */
  lemma {:induction false} PathLabelInjective(a: seq<nat>, b: seq<nat>)
    requires PathLabel(a) == PathLabel(b)
    ensures a == b
    decreases |a|
  {
    if a != [] && b != [] {
      var da, ra := NatToString(a[0]), PathLabel(a[1..]);
      var db, rb := NatToString(b[0]), PathLabel(b[1..]);
      assert PathLabel(a) == "_" + (da + ra) && PathLabel(b) == "_" + (db + rb);
      assert da + ra == PathLabel(a)[1..] == db + rb;
      SegmentsAgree(da, ra, db, rb);
      NatToStringInjective(a[0], b[0]);
      PathLabelInjective(a[1..], b[1..]);
      assert a == [a[0]] + a[1..] && b == [b[0]] + b[1..];
    }
  }

  /** A label definition a loop emits: `start<label>` or `end<label>`. */
  datatype Def = Start(path: seq<nat>) | End(path: seq<nat>)

  function DefName(d: Def): string
  {
    (if d.Start? then "start" else "end") + PathLabel(d.path)
  }

  /** The first letter tells a start label from an end label. */
  lemma DefNameKind(d: Def)
    ensures DefName(d)[0] == if d.Start? then 's' else 'e'
  {
  }

  lemma DefNameInjective(d: Def, e: Def)
    requires DefName(d) == DefName(e)
    ensures d == e
  {
    var n := DefName(d);
    DefNameKind(d);
    DefNameKind(e);
    if d.Start? {
      assert PathLabel(d.path) == n[5..] == PathLabel(e.path);
      PathLabelInjective(d.path, e.path);
    } else {
      assert PathLabel(d.path) == n[3..] == PathLabel(e.path);
      PathLabelInjective(d.path, e.path);
    }
  }

  function DefNames(ds: seq<Def>): (r: seq<string>)
    ensures |r| == |ds|
    ensures forall i :: 0 <= i < |ds| ==> r[i] == DefName(ds[i])
  {
    if ds == [] then [] else [DefName(ds[0])] + DefNames(ds[1..])
  }

  lemma DefNamesConcat(a: seq<Def>, b: seq<Def>)
    ensures DefNames(a + b) == DefNames(a) + DefNames(b)
  {
    assert forall i :: 0 <= i < |a| ==> (a + b)[i] == a[i];
    assert forall i :: |a| <= i < |a + b| ==> (a + b)[i] == b[i - |a|];
  }

  // ---------------------------------------------------------- loop shapes

  /** The loop structure of a body: which nodes are loops, and what is inside them. */
  datatype Shape = Leaf | Block(body: seq<Shape>)

  /**
   * The labels the loops of `shapes` define, in emission order, when the body
   * sits at `prefix` and its first loop has index `id`: each loop defines its
   * start label, then its body's labels, then its end label.
   */
  function Defs(shapes: seq<Shape>, prefix: seq<nat>, id: nat): seq<Def>
    decreases shapes
  {
    if shapes == [] then []
    else if shapes[0].Leaf? then Defs(shapes[1..], prefix, id)
    else
      var p := prefix + [id];
      [Start(p)] + Defs(shapes[0].body, p, 0) + [End(p)] + Defs(shapes[1..], prefix, id + 1)
  }

  /** The labels the jumps of `shapes` name, in emission order: `je end<label>`, the body's jumps, `jmp start<label>`. */
  function Jumps(shapes: seq<Shape>, prefix: seq<nat>, id: nat): seq<Def>
    decreases shapes
  {
    if shapes == [] then []
    else if shapes[0].Leaf? then Jumps(shapes[1..], prefix, id)
    else
      var p := prefix + [id];
      [End(p)] + Jumps(shapes[0].body, p, 0) + [Start(p)] + Jumps(shapes[1..], prefix, id + 1)
  }

  /** The names of a loop's two labels around the names of `inner`, followed by `rest`. */
  lemma AroundNames(first: Def, inner: seq<Def>, last: Def, rest: seq<Def>)
    ensures DefNames([first] + inner + [last] + rest) ==
      [DefName(first)] + DefNames(inner) + [DefName(last)] + DefNames(rest)
  {
    DefNamesConcat([first] + inner + [last], rest);
    DefNamesConcat([first] + inner, [last]);
    DefNamesConcat([first], inner);
  }

  /** A loop first in `shapes` adds its start and end labels around those of its body, by name. */
  lemma DefsStep(shapes: seq<Shape>, prefix: seq<nat>, id: nat)
    requires shapes != [] && shapes[0].Block?
    ensures var name := PathLabel(prefix) + "_" + NatToString(id);
      DefNames(Defs(shapes, prefix, id)) ==
        ["start" + name] + DefNames(Defs(shapes[0].body, prefix + [id], 0)) + ["end" + name]
        + DefNames(Defs(shapes[1..], prefix, id + 1))
  {
    var p := prefix + [id];
    PathLabelSnoc(prefix, id);
    AroundNames(Start(p), Defs(shapes[0].body, p, 0), End(p), Defs(shapes[1..], prefix, id + 1));
  }

  /** A loop first in `shapes` adds its two jump targets around those of its body, by name. */
  lemma JumpsStep(shapes: seq<Shape>, prefix: seq<nat>, id: nat)
    requires shapes != [] && shapes[0].Block?
    ensures var name := PathLabel(prefix) + "_" + NatToString(id);
      DefNames(Jumps(shapes, prefix, id)) ==
        ["end" + name] + DefNames(Jumps(shapes[0].body, prefix + [id], 0)) + ["start" + name]
        + DefNames(Jumps(shapes[1..], prefix, id + 1))
  {
    var p := prefix + [id];
    PathLabelSnoc(prefix, id);
    AroundNames(End(p), Jumps(shapes[0].body, p, 0), Start(p), Jumps(shapes[1..], prefix, id + 1));
  }

  /** `d` belongs to a loop inside the body at `prefix`, at sibling index `id` or later. */
  predicate Below(d: Def, prefix: seq<nat>, id: nat)
  {
    |d.path| > |prefix| && d.path[..|prefix|] == prefix && d.path[|prefix|] >= id
  }

  lemma {:induction false} DefsBelow(shapes: seq<Shape>, prefix: seq<nat>, id: nat)
    ensures forall d :: d in Defs(shapes, prefix, id) ==> Below(d, prefix, id)
    decreases shapes
  {
    if shapes != [] {
      if shapes[0].Leaf? {
        DefsBelow(shapes[1..], prefix, id);
      } else {
        var p := prefix + [id];
        DefsBelow(shapes[0].body, p, 0);
        DefsBelow(shapes[1..], prefix, id + 1);
        forall d | d in Defs(shapes[0].body, p, 0)
          ensures Below(d, prefix, id)
        {
          assert d.path[..|p|] == p;
          assert d.path[..|prefix|] == d.path[..|p|][..|prefix|];
          assert d.path[|prefix|] == d.path[..|p|][|prefix|];
        }
      }
    }
  }

  /** No loop defines a label twice, and no two loops define the same one. */
  lemma {:induction false} DefsDistinct(shapes: seq<Shape>, prefix: seq<nat>, id: nat)
    ensures Distinct(Defs(shapes, prefix, id))
    decreases shapes
  {
    if shapes != [] {
      if shapes[0].Leaf? {
        DefsDistinct(shapes[1..], prefix, id);
      } else {
        var p := prefix + [id];
        var inner := Defs(shapes[0].body, p, 0);
        var rest := Defs(shapes[1..], prefix, id + 1);
        DefsDistinct(shapes[0].body, p, 0);
        DefsDistinct(shapes[1..], prefix, id + 1);
        DefsBelow(shapes[0].body, p, 0);
        DefsBelow(shapes[1..], prefix, id + 1);
        // everything of this loop has `id` at position |prefix|, everything after it more
        forall d | d in inner
          ensures d.path[|prefix|] == id && |d.path| > |p|
        {
          assert d.path[..|p|] == p;
          assert d.path[|prefix|] == d.path[..|p|][|prefix|];
        }
        DistinctConcat([Start(p)], inner);
        DistinctConcat([Start(p)] + inner, [End(p)]);
        forall d | d in [Start(p)] + inner + [End(p)]
          ensures d !in rest
        {
          assert d.path[|prefix|] == id;
        }
        DistinctConcat([Start(p)] + inner + [End(p)], rest);
      }
    }
  }

  /** Every label a jump names is one some loop defines. */
  lemma {:induction false} JumpsAreDefs(shapes: seq<Shape>, prefix: seq<nat>, id: nat)
    ensures forall d :: d in Jumps(shapes, prefix, id) ==> d in Defs(shapes, prefix, id)
    decreases shapes
  {
    if shapes != [] {
      JumpsAreDefs(shapes[1..], prefix, id);
      if shapes[0].Block? {
        JumpsAreDefs(shapes[0].body, prefix + [id], 0);
        JumpsAreDefs(shapes[1..], prefix, id + 1);
      }
    }
  }

  lemma DistinctNames(ds: seq<Def>)
    requires Distinct(ds)
    ensures Distinct(DefNames(ds))
  {
    forall i, j | 0 <= i < j < |ds|
      ensures DefName(ds[i]) != DefName(ds[j])
    {
      if DefName(ds[i]) == DefName(ds[j]) {
        DefNameInjective(ds[i], ds[j]);
      }
    }
  }

  /**
   * The label scheme of a whole program: the entry label and the loops'
   * labels are all distinct, and every label a jump names is defined exactly
   * once.
   */
  lemma LabelScheme(shapes: seq<Shape>, entry: string)
    requires |entry| > 0 && entry[0] != 's' && entry[0] != 'e'
    ensures var defs := [entry] + DefNames(Defs(shapes, [], 0));
      && Distinct(defs)
      && forall t :: t in DefNames(Jumps(shapes, [], 0)) ==> Count(defs, t) == 1
  {
    var ds := Defs(shapes, [], 0);
    var names := DefNames(ds);
    var defs := [entry] + names;
    DefsDistinct(shapes, [], 0);
    DistinctNames(ds);
    forall t | t in names
      ensures t != entry
    {
      var i :| 0 <= i < |names| && names[i] == t;
      assert t[0] == 's' || t[0] == 'e';
    }
    DistinctConcat([entry], names);
    JumpsAreDefs(shapes, [], 0);
    forall t | t in DefNames(Jumps(shapes, [], 0))
      ensures Count(defs, t) == 1
    {
      var js := Jumps(shapes, [], 0);
      var i :| 0 <= i < |js| && DefNames(js)[i] == t;
      assert js[i] in ds;
      var j :| 0 <= j < |ds| && ds[j] == js[i];
      assert names[j] == t;
      DistinctCountsOnce(defs, t);
    }
  }

  /** The loop structure of a tree of the first node set. */
  function IrShapes(nodes: seq<I.Node>): seq<Shape>
    decreases nodes
  {
    if nodes == [] then []
    else [if nodes[0].Loop? then Block(IrShapes(nodes[0].body)) else Leaf] + IrShapes(nodes[1..])
  }

  /** The loop structure of a tree of the second node set. */
  function AstShapes(nodes: seq<A.Node>): seq<Shape>
    decreases nodes
  {
    if nodes == [] then []
    else [if nodes[0].Loop? then Block(AstShapes(nodes[0].body)) else Leaf] + AstShapes(nodes[1..])
  }

  // -------------------------------------------------------------- lines

  /** An indented instruction line that is not a jump: it defines no label and names none. */
  predicate Instruction(line: string)
  {
    |line| > 4 && line[..4] == "    " && line[4] != 'j'
  }

  /** Text after an instruction keeps it an instruction: the indent and the mnemonic's first letter stay. */
  lemma InstructionThen(line: string, rest: string)
    requires Instruction(line)
    ensures Instruction(line + rest)
  {
    assert (line + rest)[..4] == line[..4];
  }

  /** The spelling of a loop's test and of its two jumps (everything before the label). */
  datatype LoopSyntax = LoopSyntax(compare: string, jumpIfZero: string, jump: string)
  {
    predicate Valid()
    {
      && Instruction(compare)
      && |jumpIfZero| > 4 && jumpIfZero[..4] == "    " && jumpIfZero[4] == 'j'
      && |jump| > 4 && jump[..4] == "    " && jump[4] == 'j'
      && |jumpIfZero| <= |jump| && jump[..|jumpIfZero|] != jumpIfZero
    }
  }

  /** The lines of a loop with label `name` around the lines of its body. */
  function LoopLines(syntax: LoopSyntax, name: string, body: seq<string>): seq<string>
  {
    ["start" + name + ":", syntax.compare, syntax.jumpIfZero + "end" + name]
      + body
      + [syntax.jump + "start" + name, "end" + name + ":"]
  }

  /** The label a line defines: an unindented line ending in a colon. */
  function LineLabel(line: string): seq<string>
  {
    if |line| > 0 && line[0] != ' ' && line[|line| - 1] == ':' then [line[..|line| - 1]] else []
  }

  function LabelDefs(lines: seq<string>): seq<string>
  {
    if lines == [] then [] else LineLabel(lines[0]) + LabelDefs(lines[1..])
  }

  /** The label a jump line names. */
  function LineJump(line: string, syntax: LoopSyntax): seq<string>
  {
    if HasPrefix(line, syntax.jumpIfZero) then [line[|syntax.jumpIfZero|..]]
    else if HasPrefix(line, syntax.jump) then [line[|syntax.jump|..]]
    else []
  }

  function JumpTargets(lines: seq<string>, syntax: LoopSyntax): seq<string>
  {
    if lines == [] then [] else LineJump(lines[0], syntax) + JumpTargets(lines[1..], syntax)
  }

  lemma {:induction false} LinesConcat(a: seq<string>, b: seq<string>, syntax: LoopSyntax)
    ensures LabelDefs(a + b) == LabelDefs(a) + LabelDefs(b)
    ensures JumpTargets(a + b, syntax) == JumpTargets(a, syntax) + JumpTargets(b, syntax)
  {
    if a == [] {
      assert a + b == b;
    } else {
      assert (a + b)[1..] == a[1..] + b;
      LinesConcat(a[1..], b, syntax);
    }
  }

  lemma LinesOfTwo(a: string, b: string, syntax: LoopSyntax)
    ensures LabelDefs([a, b]) == LineLabel(a) + LineLabel(b)
    ensures JumpTargets([a, b], syntax) == LineJump(a, syntax) + LineJump(b, syntax)
  {
    assert [a, b][1..] == [b] && [b][1..] == [];
    assert LabelDefs([b]) == LineLabel(b) + LabelDefs([]);
    assert JumpTargets([b], syntax) == LineJump(b, syntax) + JumpTargets([], syntax);
  }

  lemma LinesOfThree(a: string, b: string, c: string, syntax: LoopSyntax)
    ensures LabelDefs([a, b, c]) == LineLabel(a) + LineLabel(b) + LineLabel(c)
    ensures JumpTargets([a, b, c], syntax) == LineJump(a, syntax) + LineJump(b, syntax) + LineJump(c, syntax)
  {
    assert [a, b, c][1..] == [b, c];
    LinesOfTwo(b, c, syntax);
  }

  lemma LinesOfFour(a: string, b: string, c: string, d: string, syntax: LoopSyntax)
    ensures LabelDefs([a, b, c, d]) == LineLabel(a) + LineLabel(b) + LineLabel(c) + LineLabel(d)
    ensures JumpTargets([a, b, c, d], syntax) ==
      LineJump(a, syntax) + LineJump(b, syntax) + LineJump(c, syntax) + LineJump(d, syntax)
  {
    assert [a, b, c, d][1..] == [b, c, d];
    LinesOfThree(b, c, d, syntax);
  }

  lemma {:induction false} InstructionsOnly(lines: seq<string>, syntax: LoopSyntax)
    requires syntax.Valid()
    requires forall i :: 0 <= i < |lines| ==> Instruction(lines[i])
    ensures LabelDefs(lines) == [] && JumpTargets(lines, syntax) == []
  {
    if lines != [] {
      var line := lines[0];
      assert line[..4] == "    ";
      assert line[0] == ' ';
      assert !HasPrefix(line, syntax.jumpIfZero) by {
        assert syntax.jumpIfZero[4] == 'j';
      }
      assert !HasPrefix(line, syntax.jump) by {
        assert syntax.jump[4] == 'j';
      }
      InstructionsOnly(lines[1..], syntax);
    }
  }

  /** An unindented line not ending in a colon (a directive, say) defines no label and jumps nowhere. */
  lemma DirectiveLine(line: string, syntax: LoopSyntax)
    requires syntax.Valid()
    requires |line| > 0 && line[0] != ' ' && line[|line| - 1] != ':'
    ensures LineLabel(line) == [] && LineJump(line, syntax) == []
  {
    assert syntax.jumpIfZero[0] == ' ' && syntax.jump[0] == ' ';
  }

  lemma EmptyLine(syntax: LoopSyntax)
    requires syntax.Valid()
    ensures LineLabel("") == [] && LineJump("", syntax) == []
  {
  }

  /** `name:` defines `name` and jumps nowhere. */
  lemma LabelLine(name: string, syntax: LoopSyntax)
    requires syntax.Valid()
    requires |name| > 0 && name[0] != ' '
    ensures LineLabel(name + ":") == [name] && LineJump(name + ":", syntax) == []
  {
    var line := name + ":";
    assert line[..|line| - 1] == name;
    assert syntax.jumpIfZero[0] == ' ' && syntax.jump[0] == ' ';
  }

  /** A line indented by four spaces whose text does not start with `j` is an instruction. */
  lemma IndentedLine(line: string)
    requires |line| > 4 && line[0] == ' ' && line[1] == ' ' && line[2] == ' ' && line[3] == ' ' && line[4] != 'j'
    ensures Instruction(line)
  {
    assert line[..4] == "    ";
  }

  lemma InstructionLine(line: string, syntax: LoopSyntax)
    requires syntax.Valid() && Instruction(line)
    ensures LineLabel(line) == [] && LineJump(line, syntax) == []
  {
    InstructionsOnly([line], syntax);
    assert [line][1..] == [];
    LinesOfTwo(line, "", syntax);
  }

  /**
   * A listing made of a prologue that defines only `entry`, a body whose
   * labels and jumps follow the loop scheme, and an epilogue without labels
   * or jumps, defines every label once and every jump target exactly once.
   */
  lemma ListingLabels(prologue: seq<string>, body: seq<string>, epilogue: seq<string>,
                      syntax: LoopSyntax, shapes: seq<Shape>, entry: string)
    requires |entry| > 0 && entry[0] != 's' && entry[0] != 'e'
    requires LabelDefs(prologue) == [entry] && JumpTargets(prologue, syntax) == []
    requires LabelDefs(body) == DefNames(Defs(shapes, [], 0))
    requires JumpTargets(body, syntax) == DefNames(Jumps(shapes, [], 0))
    requires LabelDefs(epilogue) == [] && JumpTargets(epilogue, syntax) == []
    ensures var lines := prologue + body + epilogue;
      && Distinct(LabelDefs(lines))
      && forall t :: t in JumpTargets(lines, syntax) ==> Count(LabelDefs(lines), t) == 1
  {
    var lines := prologue + body + epilogue;
    var defs := [entry] + DefNames(Defs(shapes, [], 0));
    var jumps := DefNames(Jumps(shapes, [], 0));
    LinesConcat(prologue, body, syntax);
    LinesConcat(prologue + body, epilogue, syntax);
    assert LabelDefs(lines) == defs by {
      assert LabelDefs(lines) == defs + [];
    }
    assert JumpTargets(lines, syntax) == jumps by {
      assert JumpTargets(lines, syntax) == [] + jumps + [];
    }
    LabelScheme(shapes, entry);
  }

  /** Instructions in front of other lines add no label and no jump. */
  lemma InstructionsThen(syntax: LoopSyntax, lines: seq<string>, rest: seq<string>)
    requires syntax.Valid()
    requires forall i :: 0 <= i < |lines| ==> Instruction(lines[i])
    ensures LabelDefs(lines + rest) == LabelDefs(rest)
    ensures JumpTargets(lines + rest, syntax) == JumpTargets(rest, syntax)
  {
    LinesConcat(lines, rest, syntax);
    InstructionsOnly(lines, syntax);
  }

  /** The labels of one loop's lines, of one line each. */
  lemma LoopLineLabels(syntax: LoopSyntax, name: string)
    requires syntax.Valid()
    ensures LineLabel("start" + name + ":") == ["start" + name]
    ensures LineLabel("end" + name + ":") == ["end" + name]
    ensures LineJump("start" + name + ":", syntax) == []
    ensures LineJump("end" + name + ":", syntax) == []
    ensures LineLabel(syntax.compare) == [] && LineJump(syntax.compare, syntax) == []
    ensures LineLabel(syntax.jumpIfZero + "end" + name) == []
    ensures LineJump(syntax.jumpIfZero + "end" + name, syntax) == ["end" + name]
    ensures LineLabel(syntax.jump + "start" + name) == []
    ensures LineJump(syntax.jump + "start" + name, syntax) == ["start" + name]
  {
    var je, jmp := syntax.jumpIfZero, syntax.jump;
    assert je[0] == ' ' && jmp[0] == ' ';
    var open, close := "start" + name + ":", "end" + name + ":";
    assert open[0] == 's' && close[0] == 'e';
    assert open[..|open| - 1] == "start" + name;
    assert close[..|close| - 1] == "end" + name;
    assert !HasPrefix(open, je) && !HasPrefix(open, jmp);
    assert !HasPrefix(close, je) && !HasPrefix(close, jmp);
    var c := syntax.compare;
    assert c[0] == ' ' && c[4] != 'j';
    assert !HasPrefix(c, je) by {
      assert je[4] == 'j';
    }
    assert !HasPrefix(c, jmp) by {
      assert jmp[4] == 'j';
    }
    var jeLine, jmpLine := je + "end" + name, jmp + "start" + name;
    assert jeLine[0] == ' ' && jmpLine[0] == ' ';
    assert jeLine[..|je|] == je && jeLine[|je|..] == "end" + name;
    assert jmpLine[..|jmp|] == jmp && jmpLine[|jmp|..] == "start" + name;
    assert jmpLine[..|je|] == jmp[..|je|];
  }

  /** The three lines that open a loop define its start label and jump to its end label. */
  lemma LoopOpening(syntax: LoopSyntax, name: string)
    requires syntax.Valid()
    ensures var opening := ["start" + name + ":", syntax.compare, syntax.jumpIfZero + "end" + name];
      LabelDefs(opening) == ["start" + name] && JumpTargets(opening, syntax) == ["end" + name]
  {
    LoopLineLabels(syntax, name);
    LinesOfThree("start" + name + ":", syntax.compare, syntax.jumpIfZero + "end" + name, syntax);
  }

  /** The two lines that close a loop jump to its start label and define its end label. */
  lemma LoopClosing(syntax: LoopSyntax, name: string)
    requires syntax.Valid()
    ensures var closing := [syntax.jump + "start" + name, "end" + name + ":"];
      LabelDefs(closing) == ["end" + name] && JumpTargets(closing, syntax) == ["start" + name]
  {
    LoopLineLabels(syntax, name);
    LinesOfTwo(syntax.jump + "start" + name, "end" + name + ":", syntax);
  }

  /** A loop in front of other lines adds its two labels around its body's, and its two jumps around its body's. */
  lemma LoopLinesThen(syntax: LoopSyntax, name: string, body: seq<string>, rest: seq<string>)
    requires syntax.Valid()
    ensures LabelDefs(LoopLines(syntax, name, body) + rest) ==
      ["start" + name] + LabelDefs(body) + ["end" + name] + LabelDefs(rest)
    ensures JumpTargets(LoopLines(syntax, name, body) + rest, syntax) ==
      ["end" + name] + JumpTargets(body, syntax) + ["start" + name] + JumpTargets(rest, syntax)
  {
    var opening := ["start" + name + ":", syntax.compare, syntax.jumpIfZero + "end" + name];
    var closing := [syntax.jump + "start" + name, "end" + name + ":"];
    LoopOpening(syntax, name);
    LoopClosing(syntax, name);
    LinesConcat(opening, body, syntax);
    LinesConcat(opening + body, closing, syntax);
    LinesConcat(opening + body + closing, rest, syntax);
  }

  // ------------------------------------------------------------ operands

  /** The text between `prefix` and `suffix`, when the line has that form. */
  function Operand(line: string, prefix: string, suffix: string): Option<string>
  {
    if |prefix| + |suffix| <= |line| && line[..|prefix|] == prefix && line[|line| - |suffix|..] == suffix
    then Some(line[|prefix|..|line| - |suffix|])
    else None
  }

  /** A non-negative decimal operand between `prefix` and `suffix`. */
  function UnsignedOperand(line: string, prefix: string, suffix: string): Option<nat>
  {
    var text := Operand(line, prefix, suffix);
    if text.None? then None else ParseNat(text.value)
  }

  /** An optionally signed decimal operand between `prefix` and `suffix`. */
  function SignedOperand(line: string, prefix: string, suffix: string): Option<int>
  {
    var text := Operand(line, prefix, suffix);
    if text.None? then None else ParseInt(text.value)
  }

  lemma UnsignedOperandOf(prefix: string, n: nat, suffix: string)
    ensures UnsignedOperand(prefix + NatToString(n) + suffix, prefix, suffix) == Some(n)
  {
    var m := NatToString(n);
    var line := prefix + m + suffix;
    assert line[..|prefix|] == prefix;
    assert line[|line| - |suffix|..] == suffix;
    assert line[|prefix|..|line| - |suffix|] == m;
    NatToStringRoundTrip(n);
  }

  lemma SignedOperandOf(prefix: string, n: int, suffix: string)
    ensures SignedOperand(prefix + IntToString(n) + suffix, prefix, suffix) == Some(n)
  {
    var m := IntToString(n);
    var line := prefix + m + suffix;
    assert line[..|prefix|] == prefix;
    assert line[|line| - |suffix|..] == suffix;
    assert line[|prefix|..|line| - |suffix|] == m;
    IntToStringRoundTrip(n);
  }

  /** A line that differs from `prefix` at one of its positions has no operand after it. */
  lemma NoOperand(line: string, prefix: string, suffix: string, k: nat)
    requires k < |prefix| && k < |line| && line[k] != prefix[k]
    ensures Operand(line, prefix, suffix) == None
  {
    if |prefix| <= |line| {
      assert line[..|prefix|][k] == line[k];
    }
  }
}
