/**
 * Laws of the merge optimization: its output has no two adjacent nodes of
 * one type at any depth, it never grows the IR, it is idempotent, and it
 * turns each uniform run into the single node the source promises.
 */
module IntermediateMerging {
  import opened Intermediate
  import SeqUtil

  /** No two adjacent nodes share a type, at any depth. */
  predicate Merged(s: seq<Node>)
    decreases s
  {
    && (forall i :: 0 <= i < |s| - 1 ==> KindOf(s[i]) != KindOf(s[i + 1]))
    && (forall i :: 0 <= i < |s| ==> s[i].Loop? ==> Merged(s[i].body))
  }

  /** The merged node keeps the type of the run it replaces. */
  lemma MergedRunKind(s: seq<Node>)
    requires |s| > 0
    ensures KindOf(MergedRun(s)) == KindOf(s[0])
  {
  }

  /**
   * The optimizer's output: empty exactly when its input is, never longer,
   * starting with a node of the input's first type, and merged at every depth.
   */
  lemma {:induction false} MergeRunsShape(s: seq<Node>)
    ensures var m := MergeRuns(s);
      && (m == [] <==> s == [])
      && |m| <= |s|
      && (s != [] ==> KindOf(m[0]) == KindOf(s[0]))
      && Merged(m)
    decreases s
  {
    if s != [] {
      var k := RunLength(s);
      var head := MergedRun(s);
      var tail := MergeRuns(s[k..]);
      MergeRunsShape(s[k..]);
      MergedRunKind(s);
      RunLengthIsRun(s);
      if s[0].Loop? {
        MergeRunsShape(s[0].body);
      }
      assert Merged([head] + tail) by {
        var m := [head] + tail;
        forall i | 0 <= i < |m| - 1
          ensures KindOf(m[i]) != KindOf(m[i + 1])
        {
          if i == 0 {
            assert m[1] == tail[0];
          } else {
            assert m[i] == tail[i - 1] && m[i + 1] == tail[i];
          }
        }
        forall i | 0 <= i < |m| && m[i].Loop?
          ensures Merged(m[i].body)
        {
          if i > 0 {
            assert m[i] == tail[i - 1];
          }
        }
      }
    }
  }

  /** An additive node with its own argument is itself. */
  lemma WithOwnArgument(node: Node)
    requires !node.Loop?
    ensures WithArgument(node, node.n) == node
  {
  }

  /** Merged IR is left as it is. */
  lemma {:induction false} MergedIsFixpoint(s: seq<Node>)
    requires Merged(s)
    ensures MergeRuns(s) == s
    decreases s
  {
    if s != [] {
      assert RunLength(s) == 1;
      assert Merged(s[1..]) by {
        forall i | 0 <= i < |s[1..]| - 1
          ensures KindOf(s[1..][i]) != KindOf(s[1..][i + 1])
        {
          assert s[1..][i] == s[i + 1] && s[1..][i + 1] == s[i + 2];
        }
        forall i | 0 <= i < |s[1..]| && s[1..][i].Loop?
          ensures Merged(s[1..][i].body)
        {
          assert s[1..][i] == s[i + 1];
        }
      }
      MergedIsFixpoint(s[1..]);
      if s[0].Loop? {
        MergedIsFixpoint(s[0].body);
      } else {
        assert s[..1] == [s[0]];
        assert SumArguments([s[0]]) == s[0].n by {
          assert [s[0]][1..] == [];
        }
        WithOwnArgument(s[0]);
      }
      assert s == [s[0]] + s[1..];
    }
  }

  /** Optimizing twice is optimizing once. */
  lemma MergeRunsIdempotent(s: seq<Node>)
    ensures MergeRuns(MergeRuns(s)) == MergeRuns(s)
  {
    MergeRunsShape(s);
    MergedIsFixpoint(MergeRuns(s));
  }

  /** A run of one additive type, alone, becomes one node of that type carrying the run's sum. */
  lemma UniformAdditiveRun(s: seq<Node>)
    requires |s| > 0
    requires forall i :: 0 <= i < |s| ==> KindOf(s[i]) == KindOf(s[0]) && !s[i].Loop?
    ensures MergeRuns(s) == [WithArgument(s[0], SumArguments(s))]
  {
    RunLengthIsMaximalRun(s, |s|);
    assert s[..|s|] == s;
    assert s[|s|..] == [];
    assert [MergedRun(s)] + [] == [MergedRun(s)];
  }

  /** A run of loops, alone, becomes its first loop with the body optimized. */
  lemma UniformLoopRun(s: seq<Node>)
    requires |s| > 0
    requires forall i :: 0 <= i < |s| ==> s[i].Loop?
    ensures MergeRuns(s) == [Loop(MergeRuns(s[0].body))]
  {
    RunLengthIsMaximalRun(s, |s|);
    assert s[|s|..] == [];
    assert [MergedRun(s)] + [] == [MergedRun(s)];
  }

  /**
   * Runs never cross a change of type: when `a` ends with a node of another
   * type than the one `b` starts with, the two are optimized separately.
   */
  lemma {:induction false} MergeRunsSplit(a: seq<Node>, b: seq<Node>)
    requires a == [] || b == [] || KindOf(a[|a| - 1]) != KindOf(b[0])
    ensures MergeRuns(a + b) == MergeRuns(a) + MergeRuns(b)
    decreases |a|
  {
    if a == [] {
      assert a + b == b;
    } else {
      var rest := a[RunLength(a)..];
      if rest != [] {
        assert rest[|rest| - 1] == a[|a| - 1];
      }
      MergeRunsSplit(rest, b);
      MergeRunsSplitStep(a, b);
    }
  }

  /** The step of `MergeRunsSplit`: the first run of `a` is merged alone, the rest of `a` with `b` as the hypothesis says. */
  lemma MergeRunsSplitStep(a: seq<Node>, b: seq<Node>)
    requires a != [] && (b == [] || KindOf(a[|a| - 1]) != KindOf(b[0]))
    requires MergeRuns(a[RunLength(a)..] + b) == MergeRuns(a[RunLength(a)..]) + MergeRuns(b)
    ensures MergeRuns(a + b) == MergeRuns(a) + MergeRuns(b)
  {
    var s := a + b;
    var rest := a[RunLength(a)..];
    var m := MergedRun(a);
    assert MergeRuns(s) == [m] + MergeRuns(rest + b) by {
      FirstRunOfConcat(a, b);
      MergeRunsUnfold(s);
    }
    assert MergeRuns(a) == [m] + MergeRuns(rest) by {
      MergeRunsUnfold(a);
    }
    SeqUtil.AppendAssociative([m], MergeRuns(rest), MergeRuns(b));
  }

  /** The first run of `a + b` is the first run of `a` when the type changes between them. */
  lemma FirstRunOfConcat(a: seq<Node>, b: seq<Node>)
    requires a != [] && (b == [] || KindOf(a[|a| - 1]) != KindOf(b[0]))
    ensures RunLength(a + b) == RunLength(a)
    ensures MergedRun(a + b) == MergedRun(a)
    ensures (a + b)[RunLength(a)..] == a[RunLength(a)..] + b
  {
    var s := a + b;
    var k := RunLength(a);
    assert s[..|a|] == a;
    RunLengthOfPrefix(s, |a|);
    assert RunLength(s) == k;
    assert s[0] == a[0];
    assert s[..k] == a[..k];
    assert s[k..] == a[k..] + b;
  }

  /** The run at the start of `s` lies inside a prefix whose end changes type. */
  lemma {:induction false} RunLengthOfPrefix(s: seq<Node>, p: nat)
    requires 0 < p <= |s| && (p == |s| || KindOf(s[p - 1]) != KindOf(s[p]))
    ensures RunLength(s) == RunLength(s[..p])
    decreases p
  {
    if p > 1 && KindOf(s[1]) == KindOf(s[0]) {
      assert s[1..][..p - 1] == s[..p][1..];
      RunLengthOfPrefix(s[1..], p - 1);
    }
  }

  // ------------------------------------------------------------ examples

  lemma CancellingAddsKeepZero()
    ensures MergeRuns([Add(1), Add(-1)]) == [Add(0)]
  {
    UniformAdditiveRun([Add(1), Add(-1)]);
    assert [Add(1), Add(-1)][1..] == [Add(-1)];
  }

  lemma ThreeUpTwoDown()
    ensures MergeRuns([Add(1), Add(1), Add(1), Add(-1), Add(-1)]) == [Add(1)]
  {
    var s := [Add(1), Add(1), Add(1), Add(-1), Add(-1)];
    UniformAdditiveRun(s);
    assert s[1..][1..][1..][1..][1..] == [];
  }

  lemma SecondLoopDropped()
    ensures MergeRuns([Loop([]), Loop([])]) == [Loop([])]
  {
    UniformLoopRun([Loop([]), Loop([])]);
  }

  lemma AddAndMoveDoNotMix()
    ensures MergeRuns([Add(1), Move(1), Add(1)]) == [Add(1), Move(1), Add(1)]
  {
    var s := [Add(1), Move(1), Add(1)];
    assert Merged(s);
    MergedIsFixpoint(s);
  }
}
