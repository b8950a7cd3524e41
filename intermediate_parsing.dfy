/**
 * Laws of the parser: it inverts printing, it ignores comment characters,
 * loops mirror brackets, and it fails exactly on unbalanced brackets.
 */
module IntermediateParsing {
  import opened Wrappers
  import opened Intermediate
  import opened SeqUtil

  // ------------------------------------------------- printing unit-form IR

  /** A node one source character (or one bracket pair) can stand for. */
  predicate UnitNode(x: Node)
    decreases x
  {
    match x
    case Add(n) => n == 1 || n == -1
    case Move(n) => n == 1 || n == -1
    case Output(n) => n == 1
    case Input(n) => n == 1
    case Loop(body) => UnitForm(body)
  }

  /** IR whose every node, at any depth, is a unit node: the shape of an unoptimized parse. */
  predicate UnitForm(t: seq<Node>)
    decreases t
  {
    t == [] || (UnitNode(t[0]) && UnitForm(t[1..]))
  }

  /** The BF text of a unit node. */
  function PrintNode(x: Node): string
    requires UnitNode(x)
    decreases x
  {
    match x
    case Add(n) => if n == 1 then "+" else "-"
    case Move(n) => if n == 1 then ">" else "<"
    case Output(_) => "."
    case Input(_) => ","
    case Loop(body) => "[" + Print(body) + "]"
  }

  /** The BF text of unit-form IR: each node printed in order. */
  function Print(t: seq<Node>): string
    requires UnitForm(t)
    decreases t
  {
    if t == [] then "" else PrintNode(t[0]) + Print(t[1..])
  }

  predicate IsBfChar(c: char)
  {
    c == '+' || c == '-' || c == '<' || c == '>' || c == '.' || c == ',' || c == '[' || c == ']'
  }

  /** The text with every comment character removed. */
  function Significant(s: string): string
  {
    if s == [] then "" else (if IsBfChar(s[0]) then [s[0]] else "") + Significant(s[1..])
  }

  lemma {:induction false} SignificantConcat(a: string, b: string)
    ensures Significant(a + b) == Significant(a) + Significant(b)
  {
    if a == [] {
      assert a + b == b;
    } else {
      assert (a + b)[1..] == a[1..] + b;
      SignificantConcat(a[1..], b);
    }
  }

  lemma {:induction false} PrintConcat(a: seq<Node>, b: seq<Node>)
    requires UnitForm(a) && UnitForm(b)
    ensures UnitForm(a + b) && Print(a + b) == Print(a) + Print(b)
  {
    if a == [] {
      assert a + b == b;
    } else {
      assert (a + b)[0] == a[0] && (a + b)[1..] == a[1..] + b;
      PrintConcat(a[1..], b);
    }
  }

  // ------------------------------------------------ parsing inverts printing

  /** Printed unit-form IR, followed by any text, parses back to that IR followed by the text's parse. */
  lemma {:induction false} ParsePrinted(t: seq<Node>, x: string, nested: bool)
    requires UnitForm(t)
    ensures ParseSeq(Print(t) + x, nested) == Prepend(t, ParseSeq(x, nested))
    decreases t, 1
  {
    if t == [] {
      assert Print(t) + x == x;
      PrependNothing(ParseSeq(x, nested));
    } else {
      assert Print(t) + x == PrintNode(t[0]) + (Print(t[1..]) + x);
      ParsePrintedNode(t[0], Print(t[1..]) + x, nested);
      ParsePrinted(t[1..], x, nested);
      PrependPrepend([t[0]], t[1..], ParseSeq(x, nested));
      assert [t[0]] + t[1..] == t;
    }
  }

  lemma {:induction false} ParsePrintedNode(node: Node, x: string, nested: bool)
    requires UnitNode(node)
    ensures ParseSeq(PrintNode(node) + x, nested) == Prepend([node], ParseSeq(x, nested))
    decreases node, 0
  {
    var s := PrintNode(node) + x;
    if node.Loop? {
      assert s[0] == '[' && s[1..] == Print(node.body) + ("]" + x);
      ParsePrinted(node.body, "]" + x, true);
      UnfoldClose("]" + x, true);
      assert ("]" + x)[1..] == x;
      assert node.body + [] == node.body;
      assert ParseSeq(s[1..], true) == Ok(Parsed(node.body, x));
      UnfoldOpen(s, nested);
    } else {
      var c := PrintNode(node)[0];
      assert PrintNode(node) == [c];
      assert s[0] == c && s[1..] == x;
      assert Command(c) == [node];
      UnfoldCommand(s, nested);
    }
  }

  lemma UnfoldCommand(s: string, nested: bool)
    requires s != [] && s[0] != '[' && s[0] != ']'
    ensures ParseSeq(s, nested) == Prepend(Command(s[0]), ParseSeq(s[1..], nested))
  {
  }

  lemma UnfoldClose(s: string, nested: bool)
    requires s != [] && s[0] == ']'
    ensures ParseSeq(s, nested) == if nested then Ok(Parsed([], s[1..])) else Err(UnexpectedClosingBracket)
  {
  }

  lemma UnfoldOpen(s: string, nested: bool)
    requires s != [] && s[0] == '[' && ParseSeq(s[1..], true).Ok?
    ensures ParseSeq(s, nested) ==
      Prepend([Loop(ParseSeq(s[1..], true).value.nodes)], ParseSeq(ParseSeq(s[1..], true).value.rest, nested))
  {
  }

  /** Printing then parsing gives back the IR. */
  lemma ParsePrintRoundTrip(t: seq<Node>)
    requires UnitForm(t)
    ensures Parse(Print(t)) == Ok(t)
  {
    ParsePrinted(t, "", false);
    assert Print(t) + "" == Print(t);
    assert ParseSeq("", false) == Ok(Parsed([], []));
    assert t + [] == t;
  }

  // ----------------------------------------- printing inverts parsing

  /**
   * A successful parse of `s` is unit-form IR whose printing is the consumed
   * text without its comments (and, when nested, with the closing `]`).
   */
  predicate PrintsBack(s: string, nested: bool)
  {
    ParseSeq(s, nested).Ok? ==>
      var p := ParseSeq(s, nested).value;
      UnitForm(p.nodes) && Significant(s) == Print(p.nodes) + (if nested then "]" else "") + Significant(p.rest)
  }

  lemma {:induction false} PrintParsed(s: string, nested: bool)
    ensures PrintsBack(s, nested)
    decreases |s|
  {
    if s == [] {
      assert ParseSeq(s, nested).Ok? ==> ParseSeq(s, nested).value == Parsed([], []);
    } else if s[0] == '[' {
      PrintParsed(s[1..], true);
      if ParseSeq(s[1..], true).Ok? {
        PrintParsed(ParseSeq(s[1..], true).value.rest, nested);
        OpenPrintsBack(s, nested);
      } else {
        assert !ParseSeq(s, nested).Ok?;
      }
    } else if s[0] == ']' {
      ClosePrintsBack(s, nested);
    } else {
      PrintParsed(s[1..], nested);
      CommandPrintsBackStep(s, nested);
    }
  }

  lemma OpenPrintsBack(s: string, nested: bool)
    requires s != [] && s[0] == '[' && ParseSeq(s[1..], true).Ok?
    requires PrintsBack(s[1..], true) && PrintsBack(ParseSeq(s[1..], true).value.rest, nested)
    ensures PrintsBack(s, nested)
  {
    var close: string := if nested then "]" else "";
    UnfoldOpen(s, nested);
    var inner := ParseSeq(s[1..], true).value;
    if ParseSeq(inner.rest, nested).Ok? {
      var p := ParseSeq(s, nested).value;
      var after := ParseSeq(inner.rest, nested).value;
      assert s == [s[0]] + s[1..];
      SignificantConcat([s[0]], s[1..]);
      assert [s[0]][1..] == [];
      assert Significant([s[0]]) == "[";
      var loop := [Loop(inner.nodes)];
      assert p.nodes == loop + after.nodes && p.rest == after.rest;
      UnitSingleton(Loop(inner.nodes));
      PrintConcat(loop, after.nodes);
      RegroupLoop(Significant(s), Significant(s[1..]), Significant(inner.rest), Significant(after.rest),
                  Print(inner.nodes), Print(after.nodes), Print(p.nodes), close);
    }
  }

  lemma ClosePrintsBack(s: string, nested: bool)
    requires s != [] && s[0] == ']'
    ensures PrintsBack(s, nested)
  {
    UnfoldClose(s, nested);
    if nested {
      var p := ParseSeq(s, nested).value;
      assert p == Parsed([], s[1..]);
      assert s == [s[0]] + s[1..];
      SignificantConcat([s[0]], s[1..]);
      assert [s[0]][1..] == [];
      assert Significant([s[0]]) == "]";
    }
  }

  lemma CommandPrintsBackStep(s: string, nested: bool)
    requires s != [] && s[0] != '[' && s[0] != ']'
    requires PrintsBack(s[1..], nested)
    ensures PrintsBack(s, nested)
  {
    var close: string := if nested then "]" else "";
    UnfoldCommand(s, nested);
    if ParseSeq(s[1..], nested).Ok? {
      var p := ParseSeq(s, nested).value;
      var after := ParseSeq(s[1..], nested).value;
      var head := Command(s[0]);
      assert p.nodes == head + after.nodes && p.rest == after.rest;
      SignificantCons(s);
      CommandPrintsBack(s[0]);
      PrintConcat(head, after.nodes);
      RegroupCommand(Significant(s), Significant([s[0]]), Significant(s[1..]), Significant(after.rest),
                     Print(after.nodes), Print(p.nodes), close);
    }
  }

  lemma SignificantCons(s: string)
    requires s != []
    ensures Significant(s) == Significant([s[0]]) + Significant(s[1..])
  {
    assert [s[0]][1..] == [];
  }

  /** The bookkeeping step of `OpenPrintsBack`, over plain strings. */
  lemma RegroupLoop(sig: string, sig1: string, sigInner: string, sigAfter: string,
                    body: string, tail: string, printed: string, close: string)
    requires sig == "[" + sig1
    requires sig1 == body + "]" + sigInner
    requires sigInner == tail + close + sigAfter
    requires printed == "[" + body + "]" + tail
    ensures sig == printed + close + sigAfter
  {
  }

  /** The bookkeeping step of `CommandPrintsBackStep`, over plain strings. */
  lemma RegroupCommand(sig: string, head: string, sig1: string, sigAfter: string,
                       tail: string, printed: string, close: string)
    requires sig == head + sig1
    requires sig1 == tail + close + sigAfter
    requires printed == head + tail
    ensures sig == printed + close + sigAfter
  {
  }

  /** The node a character parses to prints back as that character, or as nothing for a comment. */
  lemma CommandPrintsBack(c: char)
    requires c != '[' && c != ']'
    ensures UnitForm(Command(c)) && Print(Command(c)) == Significant([c])
  {
    assert [c][1..] == [];
    assert Significant([c]) == if IsBfChar(c) then [c] else "";
    if IsBfChar(c) {
      var x := Command(c)[0];
      assert Command(c) == [x] && UnitNode(x) && PrintNode(x) == [c];
      UnitSingleton(x);
    }
  }

  lemma UnitSingleton(x: Node)
    requires UnitNode(x)
    ensures UnitForm([x]) && Print([x]) == PrintNode(x)
  {
    assert [x][1..] == [];
  }

  /** What a program parses to, printed back, is the program without its comments. */
  lemma PrintParseRoundTrip(code: string)
    requires Parse(code).Ok?
    ensures UnitForm(Parse(code).value) && Print(Parse(code).value) == Significant(code)
  {
    PrintParsed(code, false);
  }

  // -------------------------------------------------- balanced brackets

  /** The change of bracket depth a character makes. */
  function Delta(c: char): int
  {
    if c == '[' then 1 else if c == ']' then -1 else 0
  }

  /** Open brackets minus closing brackets. */
  function Depth(s: string): int
  {
    if s == [] then 0 else Delta(s[0]) + Depth(s[1..])
  }

  /** The least depth reached by any prefix of `s` (the empty prefix included). */
  function MinDepth(s: string): (d: int)
    ensures d <= 0 && d <= Depth(s)
  {
    if s == [] then 0
    else
      var inner := Delta(s[0]) + MinDepth(s[1..]);
      if inner < 0 then inner else 0
  }

  /** Every `]` closes an earlier `[` and every `[` is closed. */
  predicate Balanced(s: string)
  {
    MinDepth(s) >= 0 && Depth(s) == 0
  }

  lemma {:induction false} DepthConcat(a: string, b: string)
    ensures Depth(a + b) == Depth(a) + Depth(b)
    ensures MinDepth(a + b) == if MinDepth(a) <= Depth(a) + MinDepth(b) then MinDepth(a) else Depth(a) + MinDepth(b)
  {
    if a == [] {
      assert a + b == b;
    } else {
      assert (a + b)[1..] == a[1..] + b;
      DepthConcat(a[1..], b);
    }
  }

  /** `MinDepth` is the least depth over the prefixes of the text. */
  lemma {:induction false} MinDepthOverPrefixes(s: string)
    ensures forall m :: 0 <= m <= |s| ==> MinDepth(s) <= Depth(s[..m])
    ensures exists m :: 0 <= m <= |s| && MinDepth(s) == Depth(s[..m])
  {
    if s == [] {
      assert Depth(s[..0]) == 0;
    } else {
      MinDepthOverPrefixes(s[1..]);
      forall m | 0 <= m <= |s|
        ensures MinDepth(s) <= Depth(s[..m])
      {
        if m > 0 {
          assert s[..m] == [s[0]] + s[1..][..m - 1];
          DepthConcat([s[0]], s[1..][..m - 1]);
        }
      }
      if MinDepth(s) == 0 {
        assert Depth(s[..0]) == 0;
      } else {
        var m :| 0 <= m <= |s[1..]| && MinDepth(s[1..]) == Depth(s[1..][..m]);
        assert s[..m + 1] == [s[0]] + s[1..][..m];
        DepthConcat([s[0]], s[1..][..m]);
      }
    }
  }

  // ---------------------------------------- parsing balanced text

  /** What a parse leaves unread is a suffix of its input. */
  lemma {:induction false} ParseRestIsSuffix(s: string, nested: bool)
    requires ParseSeq(s, nested).Ok?
    ensures var rest := ParseSeq(s, nested).value.rest;
      rest == s[|s| - |rest|..]
    decreases |s|
  {
    if s != [] {
      if s[0] == '[' {
        var inner := ParseSeq(s[1..], true).value;
        ParseRestIsSuffix(s[1..], true);
        ParseRestIsSuffix(inner.rest, nested);
        assert s[1..][|s| - 1 - |inner.rest|..] == s[|s| - |inner.rest|..];
      } else if s[0] != ']' {
        ParseRestIsSuffix(s[1..], nested);
        var rest := ParseSeq(s, nested).value.rest;
        assert s[1..][|s| - 1 - |rest|..] == s[|s| - |rest|..];
      }
    }
  }

  /** A nested parse that succeeds still succeeds, with the same nodes, when more text follows. */
  lemma {:induction false} NestedParseExtends(y: string, z: string)
    requires ParseSeq(y, true).Ok?
    ensures ParseSeq(y + z, true) ==
      Ok(Parsed(ParseSeq(y, true).value.nodes, ParseSeq(y, true).value.rest + z))
    decreases |y|
  {
    assert (y + z)[0] == y[0] && (y + z)[1..] == y[1..] + z;
    if y[0] == '[' {
      var inner := ParseSeq(y[1..], true).value;
      NestedParseExtends(y[1..], z);
      NestedParseExtends(inner.rest, z);
    } else if y[0] != ']' {
      NestedParseExtends(y[1..], z);
    }
  }

  /** Text the top level parses completely can be followed by anything: its nodes come first. */
  lemma {:induction false} ParseCompletePrefix(c: string, x: string, nested: bool)
    requires ParseSeq(c, false).Ok?
    ensures ParseSeq(c + x, nested) == Prepend(ParseSeq(c, false).value.nodes, ParseSeq(x, nested))
    decreases |c|
  {
    var t := ParseSeq(c, false).value.nodes;
    if c == [] {
      assert c + x == x;
      PrependNothing(ParseSeq(x, nested));
    } else {
      assert (c + x)[0] == c[0] && (c + x)[1..] == c[1..] + x;
      if c[0] == '[' {
        var inner := ParseSeq(c[1..], true).value;
        NestedParseExtends(c[1..], x);
        ParseCompletePrefix(inner.rest, x, nested);
        var after := ParseSeq(inner.rest, false).value;
        PrependPrepend([Loop(inner.nodes)], after.nodes, ParseSeq(x, nested));
      } else {
        ParseCompletePrefix(c[1..], x, nested);
        PrependPrepend(Command(c[0]), ParseSeq(c[1..], false).value.nodes, ParseSeq(x, nested));
      }
    }
  }

  /** A bracket pair around a program becomes one loop whose body is the program's IR. */
  lemma ParseBracketed(s: string)
    requires Parse(s).Ok?
    ensures Parse("[" + s + "]") == Ok([Loop(Parse(s).value)])
  {
    var nodes := Parse(s).value;
    var u := "[" + s + "]";
    assert ParseSeq(u[1..], true) == Ok(Parsed(nodes, [])) by {
      assert ParseSeq(s, false).Ok? && ParseSeq(s, false).value.nodes == nodes;
      assert u[1..] == s + "]";
      ParseCompletePrefix(s, "]", true);
      UnfoldClose("]", true);
      assert "]"[1..] == [];
      assert nodes + [] == nodes;
    }
    ParseLoopAlone(u, nodes);
  }

  /** Text that is one loop and nothing after it parses to that loop. */
  lemma ParseLoopAlone(u: string, nodes: seq<Node>)
    requires u != [] && u[0] == '['
    requires ParseSeq(u[1..], true) == Ok(Parsed(nodes, []))
    ensures ParseSeq(u, false) == Ok(Parsed([Loop(nodes)], []))
  {
    UnfoldOpen(u, false);
    assert ParseSeq([], false) == Ok(Parsed([], []));
    assert [Loop(nodes)] + [] == [Loop(nodes)];
  }

  /** Programs that parse, put one after the other, parse to their IRs one after the other. */
  lemma ParseConcat(a: string, b: string)
    requires Parse(a).Ok? && Parse(b).Ok?
    ensures Parse(a + b) == Ok(Parse(a).value + Parse(b).value)
  {
    ParseCompletePrefix(a, b, false);
  }

  // ------------------------------------------- where the parser fails

  /** A balanced text in front of another changes neither its depth nor its least depth. */
  lemma BalancedPrefix(b: string, x: string)
    requires Balanced(b)
    ensures Depth(b + x) == Depth(x) && MinDepth(b + x) == MinDepth(x)
  {
    DepthConcat(b, x);
  }

  /** A balanced text in brackets is balanced. */
  lemma BracketBalanced(c: string)
    requires Balanced(c)
    ensures Balanced("[" + c + "]")
  {
    DepthConcat("[" + c, "]");
    DepthConcat("[", c);
  }

  /** Depths of a text that starts with the character `ch`. */
  lemma DepthCons(ch: char, x: string)
    ensures Depth([ch] + x) == Delta(ch) + Depth(x)
    ensures MinDepth([ch] + x) == if Delta(ch) + MinDepth(x) < 0 then Delta(ch) + MinDepth(x) else 0
  {
    assert ([ch] + x)[0] == ch && ([ch] + x)[1..] == x;
  }

  /**
   * A nested parse succeeds exactly when some prefix of the text closes one
   * more bracket than it opens; it then consumes a balanced text and the `]`
   * after it. Otherwise it fails with `ClosingBracketExpected`.
   */
  predicate NestedFacts(s: string)
  {
    NestedFactsOf(s, ParseSeq(s, true))
  }

  /** The facts of `NestedFacts`, stated of a given result `r` of the nested parse of `s`. */
  predicate NestedFactsOf(s: string, r: Result<Parsed, ParseError>)
  {
    && (r.Ok? <==> MinDepth(s) < 0)
    && (r.Err? ==> r.error == ClosingBracketExpected)
    && (r.Ok? ==>
          |r.value.rest| < |s| &&
          var c := s[..|s| - |r.value.rest| - 1];
          s == c + "]" + r.value.rest && Balanced(c))
  }

  lemma {:induction false} NestedParseBalanced(s: string)
    ensures NestedFacts(s)
    decreases |s|
  {
    if s == [] {
    } else if s[0] == '[' {
      NestedParseBalanced(s[1..]);
      if ParseSeq(s[1..], true).Ok? {
        NestedParseBalanced(ParseSeq(s[1..], true).value.rest);
        NestedOpenStep(s);
      } else {
        NestedOpenFails(s);
      }
    } else if s[0] == ']' {
      NestedCloseStep(s);
    } else {
      NestedParseBalanced(s[1..]);
      NestedCommandStep(s);
    }
  }

  lemma NestedOpenFails(s: string)
    requires s != [] && s[0] == '[' && ParseSeq(s[1..], true).Err? && NestedFacts(s[1..])
    ensures NestedFacts(s)
  {
    assert s == ['['] + s[1..];
    DepthCons('[', s[1..]);
  }

  lemma NestedOpenStep(s: string)
    requires s != [] && s[0] == '[' && ParseSeq(s[1..], true).Ok? && NestedFacts(s[1..])
    requires NestedFacts(ParseSeq(s[1..], true).value.rest)
    ensures NestedFacts(s)
  {
    var s1 := s[1..];
    var r1 := ParseSeq(s1, true).value.rest;
    var c1 := s1[..|s1| - |r1| - 1];
    var b := "[" + c1 + "]";
    assert s == b + r1 by {
      HeadTail(s);
      AppendAssociative("[", c1 + "]", r1);
      AppendAssociative("[", c1, "]");
    }
    var q := ParseSeq(r1, true);
    var r := ParseSeq(s, true);
    assert r.Ok? == q.Ok? && (q.Err? ==> r == Err(q.error)) && (q.Ok? ==> r.value.rest == q.value.rest) by {
      UnfoldOpen(s, true);
    }
    assert Balanced(b) by {
      BracketBalanced(c1);
    }
    OpenFacts(s, b, r1, r, q);
  }

  /** The nested facts of `b + r1`, for a balanced `b`, follow from those of `r1`. */
  lemma OpenFacts(s: string, b: string, r1: string, r: Result<Parsed, ParseError>, q: Result<Parsed, ParseError>)
    requires s == b + r1 && Balanced(b) && NestedFactsOf(r1, q)
    requires r.Ok? == q.Ok? && (q.Err? ==> r == Err(q.error)) && (q.Ok? ==> r.value.rest == q.value.rest)
    ensures NestedFactsOf(s, r)
  {
    BalancedPrefix(b, r1);
    if q.Ok? {
      OpenThenClose(s, b, r1, q);
    }
  }

  /** After a balanced `b`, the nested parse result `q` of `r1` closes the same bracket in `b + r1`. */
  lemma OpenThenClose(s: string, b: string, r1: string, q: Result<Parsed, ParseError>)
    requires s == b + r1 && Balanced(b) && NestedFactsOf(r1, q) && q.Ok?
    ensures var rest := q.value.rest;
      |rest| < |s| &&
      var c := s[..|s| - |rest| - 1];
      s == c + "]" + rest && Balanced(c)
  {
    var rest := q.value.rest;
    var c2 := r1[..|r1| - |rest| - 1];
    var c := b + c2;
    assert s == c + "]" + rest by {
      AppendAssociative(b, c2 + "]", rest);
      AppendAssociative(b, c2, "]");
    }
    assert s[..|s| - |rest| - 1] == c by {
      AppendAssociative(c, "]", rest);
      PrefixOfConcat(c, "]" + rest);
    }
    DepthConcat(b, c2);
  }

  lemma NestedCloseStep(s: string)
    requires s != [] && s[0] == ']'
    ensures NestedFacts(s)
  {
    UnfoldClose(s, true);
    assert s == [] + "]" + s[1..];
    assert s[..|s| - |s[1..]| - 1] == [];
    assert s == [']'] + s[1..];
    DepthCons(']', s[1..]);
  }

  lemma NestedCommandStep(s: string)
    requires s != [] && s[0] != '[' && s[0] != ']' && NestedFacts(s[1..])
    ensures NestedFacts(s)
  {
    UnfoldCommand(s, true);
    assert s == [s[0]] + s[1..];
    DepthCons(s[0], s[1..]);
    if ParseSeq(s[1..], true).Ok? {
      var rest := ParseSeq(s, true).value.rest;
      var c1 := s[1..][..|s| - 1 - |rest| - 1];
      var c := [s[0]] + c1;
      assert s == c + "]" + rest;
      assert s[..|s| - |rest| - 1] == c;
      DepthCons(s[0], c1);
    }
  }

  /**
   * The top-level parse succeeds exactly on balanced text; otherwise it
   * reports an unmatched `]` when some prefix goes below depth 0, and a
   * missing `]` when none does.
   */
  predicate TopLevelFacts(s: string)
  {
    var r := ParseSeq(s, false);
    && (r.Ok? <==> Balanced(s))
    && (r == Err(UnexpectedClosingBracket) <==> MinDepth(s) < 0)
    && (r == Err(ClosingBracketExpected) <==> MinDepth(s) >= 0 && Depth(s) > 0)
  }

  lemma {:induction false} TopLevelParseFaults(s: string)
    ensures TopLevelFacts(s)
    decreases |s|
  {
    if s == [] {
    } else if s[0] == '[' {
      NestedParseBalanced(s[1..]);
      if ParseSeq(s[1..], true).Ok? {
        TopLevelParseFaults(ParseSeq(s[1..], true).value.rest);
        TopLevelOpenStep(s);
      } else {
        TopLevelOpenFails(s);
      }
    } else if s[0] == ']' {
      UnfoldClose(s, false);
      assert s == [']'] + s[1..];
      DepthCons(']', s[1..]);
    } else {
      TopLevelParseFaults(s[1..]);
      UnfoldCommand(s, false);
      assert s == [s[0]] + s[1..];
      DepthCons(s[0], s[1..]);
    }
  }

  lemma TopLevelOpenFails(s: string)
    requires s != [] && s[0] == '[' && ParseSeq(s[1..], true).Err? && NestedFacts(s[1..])
    ensures TopLevelFacts(s)
  {
    assert s == ['['] + s[1..];
    DepthCons('[', s[1..]);
  }

  lemma TopLevelOpenStep(s: string)
    requires s != [] && s[0] == '[' && ParseSeq(s[1..], true).Ok? && NestedFacts(s[1..])
    requires TopLevelFacts(ParseSeq(s[1..], true).value.rest)
    ensures TopLevelFacts(s)
  {
    var s1 := s[1..];
    var r1 := ParseSeq(s1, true).value.rest;
    var c1 := s1[..|s1| - |r1| - 1];
    var b := "[" + c1 + "]";
    assert s == b + r1;
    BracketBalanced(c1);
    BalancedPrefix(b, r1);
    UnfoldOpen(s, false);
  }

  /**
   * A program parses exactly when its brackets balance; otherwise the error says
   * whether some `]` came with no `[` open, or the text ended with a `[` open.
   */
  lemma ParseFailsExactly(code: string)
    ensures Parse(code).Ok? <==> Balanced(code)
    ensures Parse(code) == Err(UnexpectedClosingBracket) <==> MinDepth(code) < 0
    ensures Parse(code) == Err(ClosingBracketExpected) <==> MinDepth(code) >= 0 && Depth(code) > 0
  {
    TopLevelParseFaults(code);
  }

  /**
   * Comment characters do not change the parse of a program: one that parses
   * gives the same IR, and one that fails gives the same error.
   */
  lemma CommentsIgnored(code: string)
    ensures Parse(Significant(code)) == Parse(code)
  {
    if Parse(code).Ok? {
      PrintParseRoundTrip(code);
      ParsePrintRoundTrip(Parse(code).value);
    } else {
      SignificantDepth(code);
      ParseFailsExactly(code);
      ParseFailsExactly(Significant(code));
    }
  }

  /** Dropping comment characters keeps every bracket, so the depths are the same. */
  lemma {:induction false} SignificantDepth(s: string)
    ensures Depth(Significant(s)) == Depth(s) && MinDepth(Significant(s)) == MinDepth(s)
    decreases |s|
  {
    if s != [] {
      SignificantDepth(s[1..]);
      SignificantCons(s);
      HeadTail(s);
      DepthCons(s[0], s[1..]);
      if IsBfChar(s[0]) {
        assert Significant([s[0]]) == [s[0]];
        DepthCons(s[0], Significant(s[1..]));
      } else {
        assert Significant([s[0]]) == "";
        assert Significant(s) == Significant(s[1..]);
      }
    }
  }

  /** Each command character becomes its unit node; any other non-bracket character becomes nothing. */
  lemma ParseSingleCharacter(c: char)
    requires c != '[' && c != ']'
    ensures c == '+' ==> Parse([c]) == Ok([Add(1)])
    ensures c == '-' ==> Parse([c]) == Ok([Add(-1)])
    ensures c == '>' ==> Parse([c]) == Ok([Move(1)])
    ensures c == '<' ==> Parse([c]) == Ok([Move(-1)])
    ensures c == '.' ==> Parse([c]) == Ok([Output(1)])
    ensures c == ',' ==> Parse([c]) == Ok([Input(1)])
    ensures !IsBfChar(c) ==> Parse([c]) == Ok([])
  {
    UnfoldCommand([c], false);
    assert [c][1..] == [];
    assert ParseSeq([], false) == Ok(Parsed([], []));
    assert Command(c) + [] == Command(c);
  }

  // ------------------------------------------------------------ examples

  lemma PlusMinus()
    ensures Parse("+-") == Ok([Add(1), Add(-1)])
  {
    ParseSingleCharacter('+');
    ParseSingleCharacter('-');
    assert Parse("+") == Ok([Add(1)]) && Parse("-") == Ok([Add(-1)]);
    ParseConcat("+", "-");
    assert "+" + "-" == "+-";
    assert [Add(1)] + [Add(-1)] == [Add(1), Add(-1)];
  }

  lemma TwoEmptyLoops()
    ensures Parse("[][]") == Ok([Loop([]), Loop([])])
  {
    assert ParseSeq("", false) == Ok(Parsed([], []));
    assert Parse("") == Ok([]);
    ParseBracketed("");
    assert "[" + "" + "]" == "[]";
    assert Parse("[]") == Ok([Loop([])]);
    ParseConcat("[]", "[]");
    assert "[]" + "[]" == "[][]";
    assert [Loop([])] + [Loop([])] == [Loop([]), Loop([])];
  }

  lemma LoneClosingBracket()
    ensures Parse("]") == Err(UnexpectedClosingBracket)
  {
  }

  lemma UnterminatedLoop()
    ensures Parse("[+") == Err(ClosingBracketExpected)
  {
    assert "[+"[1..] == "+";
    assert "+"[1..] == "";
  }
}
