/**
 * The intermediate representation of a BF program, its recursive-descent parser
 * and the merge optimization that collapses runs of same-type nodes.
 */
module Intermediate {
  import opened Wrappers
  import SeqUtil

  /** An IR node: four additive commands carrying a signed argument, and loops. */
  datatype Node =
    | Add(n: int)         // add `n` to the current cell
    | Move(n: int)        // add `n` to the cell pointer
    | Output(n: int)      // output the current cell
    | Input(n: int)       // store an input value in the current cell
    | Loop(body: seq<Node>)

  /** The exact type of a node, the key the optimizer groups runs by. */
  datatype Kind = AddKind | MoveKind | OutputKind | InputKind | LoopKind

  function KindOf(node: Node): Kind
  {
    match node
    case Add(_) => AddKind
    case Move(_) => MoveKind
    case Output(_) => OutputKind
    case Input(_) => InputKind
    case Loop(_) => LoopKind
  }

  /** A node of the same additive type as `node`, carrying `n` instead. */
  function WithArgument(node: Node, n: int): (r: Node)
    requires !node.Loop?
    ensures KindOf(r) == KindOf(node) && r.n == n
  {
    match node
    case Add(_) => Add(n)
    case Move(_) => Move(n)
    case Output(_) => Output(n)
    case Input(_) => Input(n)
  }

  // ---------------------------------------------------------------- parsing

  datatype ParseError =
    | UnexpectedClosingBracket   // a `]` with no open `[`
    | ClosingBracketExpected     // the text ends while a `[` is open

  /** The nodes parsed so far and the text the shared iterator has not yet consumed. */
  datatype Parsed = Parsed(nodes: seq<Node>, rest: string)

  /** The node a non-bracket character stands for; other characters stand for nothing. */
  function Command(c: char): seq<Node>
  {
    match c
    case '+' => [Add(1)]
    case '-' => [Add(-1)]
    case '>' => [Move(1)]
    case '<' => [Move(-1)]
    case '.' => [Output(1)]
    case ',' => [Input(1)]
    case _ => []
  }

  /**
   * The parse of the text `s`. When `nested`, parsing stops after the `]` that
   * closes the enclosing loop and `rest` is what follows it; at the top level
   * the whole text is consumed.
   */
  function ParseSeq(s: string, nested: bool): (r: Result<Parsed, ParseError>)
    ensures r.Ok? ==> |r.value.rest| <= |s|
    ensures r.Ok? && nested ==> |r.value.rest| < |s|
    ensures r.Ok? && !nested ==> r.value.rest == []
    decreases |s|
  {
    if s == [] then
      if nested then Err(ClosingBracketExpected) else Ok(Parsed([], []))
    else if s[0] == '[' then
      match ParseSeq(s[1..], true)
      case Err(e) => Err(e)
      case Ok(inner) =>
        match ParseSeq(inner.rest, nested)
        case Err(e) => Err(e)
        case Ok(after) => Ok(Parsed([Loop(inner.nodes)] + after.nodes, after.rest))
    else if s[0] == ']' then
      if nested then Ok(Parsed([], s[1..])) else Err(UnexpectedClosingBracket)
    else
      match ParseSeq(s[1..], nested)
      case Err(e) => Err(e)
      case Ok(after) => Ok(Parsed(Command(s[0]) + after.nodes, after.rest))
  }

  /** The unoptimized IR of a whole program text. */
  function Parse(code: string): Result<seq<Node>, ParseError>
  {
    match ParseSeq(code, false)
    case Ok(p) => Ok(p.nodes)
    case Err(e) => Err(e)
  }

  /** `nodes` put in front of the nodes of a successful parse. */
  function Prepend(nodes: seq<Node>, r: Result<Parsed, ParseError>): Result<Parsed, ParseError>
  {
    match r
    case Ok(p) => Ok(Parsed(nodes + p.nodes, p.rest))
    case Err(e) => Err(e)
  }

  /** Where a nested parse stopped: the nodes read and the index of the next unread character. */
  datatype Cursor = Cursor(nodes: seq<Node>, next: nat)

  /**
   * Recursive descent from index `pos` of `code`; a `[` recursively parses the loop
   * body from the same cursor, which the nested call advances past its `]`.
   */
  method ParseSequence(code: string, pos: nat, nested: bool) returns (r: Result<Cursor, ParseError>)
    requires pos <= |code|
    ensures r.Ok? <==> ParseSeq(code[pos..], nested).Ok?
    ensures r.Err? ==> r.error == ParseSeq(code[pos..], nested).error
    ensures r.Ok? ==>
      && pos <= r.value.next <= |code|
      && ParseSeq(code[pos..], nested).value == Parsed(r.value.nodes, code[r.value.next..])
    decreases |code| - pos
  {
    var nodes: seq<Node> := [];
    var i := pos;
    PrependNothing(ParseSeq(code[pos..], nested));
    while i < |code|
      invariant pos <= i <= |code|
      invariant ParseSeq(code[pos..], nested) == Prepend(nodes, ParseSeq(code[i..], nested))
      decreases |code| - i
    {
      var c := code[i];
      if c == '[' {
        var body := ParseSequence(code, i + 1, true);
        if body.Err? {
          ParseOpenFails(code, i, nested);
          return Err(body.error);
        }
        ParseOpenStep(code, i, body.value.next, body.value.nodes, nested);
        PrependPrepend(nodes, [Loop(body.value.nodes)], ParseSeq(code[body.value.next..], nested));
        nodes := nodes + [Loop(body.value.nodes)];
        i := body.value.next;
      } else if c == ']' {
        ParseCloseStep(code, i, nested);
        if nested {
          return Ok(Cursor(nodes, i + 1));
        }
        return Err(UnexpectedClosingBracket);
      } else {
        ParseCommandStep(code, i, nested);
        PrependPrepend(nodes, Command(c), ParseSeq(code[i + 1..], nested));
        nodes := nodes + Command(c);
        i := i + 1;
      }
    }
    assert code[i..] == [];
    if nested {
      return Err(ClosingBracketExpected);
    }
    return Ok(Cursor(nodes, i));
  }

  lemma PrependNothing(r: Result<Parsed, ParseError>)
    ensures Prepend([], r) == r
  {
    if r.Ok? {
      assert [] + r.value.nodes == r.value.nodes;
    }
  }

  lemma PrependPrepend(a: seq<Node>, b: seq<Node>, r: Result<Parsed, ParseError>)
    ensures Prepend(a, Prepend(b, r)) == Prepend(a + b, r)
  {
    if r.Ok? {
      assert a + (b + r.value.nodes) == (a + b) + r.value.nodes;
    }
  }

  lemma ParseOpenStep(code: string, i: nat, next: nat, body: seq<Node>, nested: bool)
    requires i < next <= |code| && code[i] == '['
    requires ParseSeq(code[i + 1..], true) == Ok(Parsed(body, code[next..]))
    ensures ParseSeq(code[i..], nested) == Prepend([Loop(body)], ParseSeq(code[next..], nested))
  {
    assert code[i..][1..] == code[i + 1..];
  }

  lemma ParseOpenFails(code: string, i: nat, nested: bool)
    requires i < |code| && code[i] == '[' && ParseSeq(code[i + 1..], true).Err?
    ensures ParseSeq(code[i..], nested) == Err(ParseSeq(code[i + 1..], true).error)
  {
    assert code[i..][1..] == code[i + 1..];
  }

  lemma ParseCloseStep(code: string, i: nat, nested: bool)
    requires i < |code| && code[i] == ']'
    ensures ParseSeq(code[i..], nested) ==
      if nested then Ok(Parsed([], code[i + 1..])) else Err(UnexpectedClosingBracket)
  {
    assert code[i..][1..] == code[i + 1..];
  }

  lemma ParseCommandStep(code: string, i: nat, nested: bool)
    requires i < |code| && code[i] != '[' && code[i] != ']'
    ensures ParseSeq(code[i..], nested) == Prepend(Command(code[i]), ParseSeq(code[i + 1..], nested))
  {
    assert code[i..][1..] == code[i + 1..];
  }

  // ----------------------------------------------------------- optimization

  /** The length of the maximal run of nodes of `s[0]`'s type at the start of `s`. */
  function RunLength(s: seq<Node>): (k: nat)
    requires |s| > 0
    ensures 1 <= k <= |s|
  {
    if |s| == 1 || KindOf(s[1]) != KindOf(s[0]) then 1 else 1 + RunLength(s[1..])
  }

  /** The run `RunLength` measures is uniform in type, and maximal: it ends at the end or at a change of type. */
  lemma {:induction false} RunLengthIsRun(s: seq<Node>)
    requires |s| > 0
    ensures var k := RunLength(s);
      && (forall i :: 0 <= i < k ==> KindOf(s[i]) == KindOf(s[0]))
      && (k == |s| || KindOf(s[k]) != KindOf(s[0]))
  {
    if |s| > 1 && KindOf(s[1]) == KindOf(s[0]) {
      RunLengthIsRun(s[1..]);
      var k := RunLength(s);
      forall i | 0 <= i < k
        ensures KindOf(s[i]) == KindOf(s[0])
      {
        if i > 0 {
          assert s[i] == s[1..][i - 1];
        }
      }
      if k < |s| {
        assert s[k] == s[1..][k - 1];
      }
    }
  }

  /** The argument an additive command carries; a loop carries none. */
  function Argument(node: Node): int
  {
    if node.Loop? then 0 else node.n
  }

  /** The sum of the arguments of a run of additive commands. */
  function SumArguments(run: seq<Node>): int
  {
    if run == [] then 0 else Argument(run[0]) + SumArguments(run[1..])
  }

  /**
   * The merge optimization as a function: every maximal run of one node type
   * becomes one node; an additive run carries the sum of its arguments, a run of
   * loops keeps only its first loop, whose body is optimized in turn.
   */
  function MergeRuns(s: seq<Node>): seq<Node>
    decreases s, 1
  {
    if s == [] then [] else [MergedRun(s)] + MergeRuns(s[RunLength(s)..])
  }

  /** The single node that replaces the maximal run at the start of `s`. */
  function MergedRun(s: seq<Node>): Node
    requires |s| > 0
    decreases s, 0
  {
    if s[0].Loop? then Loop(MergeRuns(s[0].body))
    else WithArgument(s[0], SumArguments(s[..RunLength(s)]))
  }

  /**
   * The merge optimization as the source runs it: one pass over the runs,
   * appending one node per run to `result`.
   */
  method SameCommandSequenceOptimization(intermediate: seq<Node>) returns (result: seq<Node>)
    ensures result == MergeRuns(intermediate)
    decreases intermediate
  {
    result := [];
    var i := 0;
    while i < |intermediate|
      invariant 0 <= i <= |intermediate|
      invariant MergeRuns(intermediate) == result + MergeRuns(intermediate[i..])
      decreases |intermediate| - i
    {
      // `groupby(intermediate, type)`: the maximal run of one node type starting at `i`
      var j := i + RunLength(intermediate[i..]);
      var group := intermediate[i..j];
      MergeRunsAtRun(intermediate, i, j);
      RunLengthIsRun(intermediate[i..]);
      var merged;
      if group[0].Loop? {
        // a run of loops keeps only its first loop, its body optimized
        assert group[0] in intermediate;
        var optimizedBody := SameCommandSequenceOptimization(group[0].body);
        merged := Loop(optimizedBody);
      } else {
        // an additive run becomes one node carrying the sum
        merged := WithArgument(group[0], SumArguments(group));
      }
      assert merged == MergedRun(intermediate[i..]);
      assert (result + [merged]) + MergeRuns(intermediate[j..]) == result + MergeRuns(intermediate[i..]);
      result := result + [merged];
      i := j;
    }
  }

  /** `MergeRuns` from a run boundary `i`, where the run of `s[i]`'s type ends at `j`. */
  lemma MergeRunsAtRun(s: seq<Node>, i: nat, j: nat)
    requires i < |s| && j == i + RunLength(s[i..])
    ensures MergeRuns(s[i..]) == [MergedRun(s[i..])] + MergeRuns(s[j..])
    ensures s[i..][..RunLength(s[i..])] == s[i..j]
  {
    var t := s[i..];
    var k := RunLength(t);
    var u := t[k..];
    SeqUtil.DropOfSuffix(s, i, k);
    SeqUtil.TakeOfSuffix(s, i, k);
    assert u == s[j..];
    MergeRunsUnfold(t);
    assert MergeRuns(u) == MergeRuns(s[j..]);
  }

  lemma MergeRunsUnfold(t: seq<Node>)
    requires t != []
    ensures MergeRuns(t) == [MergedRun(t)] + MergeRuns(t[RunLength(t)..])
  {
  }

  /** A run that is uniform up to `k` and ends at `k` is the maximal run. */
  lemma {:induction false} RunLengthIsMaximalRun(s: seq<Node>, k: nat)
    requires 1 <= k <= |s|
    requires forall i :: 0 <= i < k ==> KindOf(s[i]) == KindOf(s[0])
    requires k == |s| || KindOf(s[k]) != KindOf(s[0])
    ensures RunLength(s) == k
  {
    if k > 1 {
      RunLengthIsMaximalRun(s[1..], k - 1);
    }
  }

  // ---------------------------------------------------------------- pipeline

  /** An optimization pass: the built-in merge pass, or any other IR transform. */
  datatype Optimization =
    | SameCommandSequence
    | Other(transform: seq<Node> -> seq<Node>)

  const DefaultOptimizations: seq<Optimization> := [SameCommandSequence]

  function ApplyPass(pass: Optimization, ir: seq<Node>): seq<Node>
  {
    match pass
    case SameCommandSequence => MergeRuns(ir)
    case Other(f) => f(ir)
  }

  /** The passes applied one after another, in list order. */
  function ApplyPasses(passes: seq<Optimization>, ir: seq<Node>): seq<Node>
    decreases |passes|
  {
    if passes == [] then ir else ApplyPasses(passes[1..], ApplyPass(passes[0], ir))
  }

  /** The passes that run: the given ones, or the defaults when none or an empty list is given. */
  function EffectivePasses(optimizations: Option<seq<Optimization>>): seq<Optimization>
  {
    if optimizations.None? || optimizations.value == [] then DefaultOptimizations
    else optimizations.value
  }

  /** Parses a whole program text and runs the optimization passes over its IR. */
  method BfToIntermediate(code: string, optimizations: Option<seq<Optimization>>)
    returns (r: Result<seq<Node>, ParseError>)
    ensures r.Err? <==> Parse(code).Err?
    ensures r.Err? ==> r.error == Parse(code).error
    ensures r.Ok? ==> r.value == ApplyPasses(EffectivePasses(optimizations), Parse(code).value)
    ensures r.Ok? && (optimizations.None? || optimizations.value == []) ==>
      r.value == MergeRuns(Parse(code).value)
  {
    var parsed := ParseSequence(code, 0, false);
    assert code[0..] == code;
    if parsed.Err? {
      return Err(parsed.error);
    }
    var intermediate := parsed.value.nodes;
    var passes := if optimizations.None? || optimizations.value == [] then DefaultOptimizations
                  else optimizations.value;
    var i := 0;
    while i < |passes|
      invariant 0 <= i <= |passes|
      invariant ApplyPasses(passes, parsed.value.nodes) == ApplyPasses(passes[i..], intermediate)
      decreases |passes| - i
    {
      assert passes[i..][1..] == passes[i + 1..];
      match passes[i] {
        case SameCommandSequence =>
          intermediate := SameCommandSequenceOptimization(intermediate);
        case Other(f) =>
          intermediate := f(intermediate);
      }
      i := i + 1;
    }
    assert passes[i..] == [];
    return Ok(intermediate);
  }
}
