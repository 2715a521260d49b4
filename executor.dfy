/**
 * The remote executor (`GenericGopher`): the argument vector for a node, the
 * child's stdout lines followed by its stderr lines and the `label: line` lines printed for it, and
 * the worker loop that takes nodes off the job queue.
 * The child process is an oracle `run` from the invocation to what happens.
 */
module Executor {
  import opened Wrappers
  import opened Text
  import opened Nodes
  import opened Channel

  /** A direct process invocation: the program and its discrete arguments. */
  datatype Invocation = Invocation(program: string, args: seq<string>)

  /**
   * What happens to one child process, in the order the worker finds out:
   * the stdout pipe, the stderr pipe and the start can each fail; once started,
   * the scanner yields every line of stdout and then every line of stderr,
   * and may then report a read error.
   */
  datatype Child =
    | StdoutPipeFails
    | StderrPipeFails
    | StartFails
    | Ran(stdout: seq<string>, stderr: seq<string>, readFails: bool)

  /** The conditions on which the worker calls `log.Fatal`, ending the whole run. */
  datatype FatalError = StdoutPipeError | StderrPipeError | StartError | ReadError

  /** What executing one node prints, and whether it ends the run. */
  datatype NodeResult = NodeResult(writes: seq<string>, failure: Option<FatalError>)

  /** What processing a sequence of nodes one after the other prints, how many nodes were taken, and the fatal error that stopped it, if any. */
  datatype Run = Run(writes: seq<string>, delivered: nat, failure: Option<FatalError>)

  /** One printed line: `fmt.Printf("%s: %s\n", label, text)`. */
  function Emit(tag: string, text: string): string
  {
    tag + ": " + text + "\n"
  }

  /** Recovers the text of a printed line whose label is known. */
  function StripLabel(tag: string, printed: string): string
    requires |printed| >= |tag| + 3
  {
    printed[|tag| + 2..|printed| - 1]
  }

  /** A printed line starts with its label and ": ", ends with a newline, and gives its text back. */
  lemma EmitRoundTrip(tag: string, text: string)
    ensures HasPrefix(Emit(tag, text), tag + ": ")
    ensures |Emit(tag, text)| == |tag| + |text| + 3 && Emit(tag, text)[|Emit(tag, text)| - 1] == '\n'
    ensures StripLabel(tag, Emit(tag, text)) == text
  {
    var p := Emit(tag, text);
    assert p[..|tag| + 2] == tag + ": ";
    assert p[|tag| + 2..|p| - 1] == text;
  }

  /** For a fixed label, distinct texts print as distinct lines. */
  lemma EmitInjective(tag: string, a: string, b: string)
    requires Emit(tag, a) == Emit(tag, b)
    ensures a == b
  {
    EmitRoundTrip(tag, a);
    EmitRoundTrip(tag, b);
  }

  /** Every line of `lines`, in order, printed under `tag`. */
  function Prefixed(tag: string, lines: seq<string>): (r: seq<string>)
    ensures |r| == |lines|
    ensures forall i :: 0 <= i < |r| ==> r[i] == Emit(tag, lines[i])
  {
    if lines == [] then [] else [Emit(tag, lines[0])] + Prefixed(tag, lines[1..])
  }

  /** The printed lines of a node can be read back into its output lines. */
  lemma PrefixedRoundTrip(tag: string, lines: seq<string>, i: nat)
    requires i < |lines|
    ensures |Prefixed(tag, lines)[i]| >= |tag| + 3
    ensures StripLabel(tag, Prefixed(tag, lines)[i]) == lines[i]
  {
    EmitRoundTrip(tag, lines[i]);
  }

  /**
   * Results taken one after the other until the first fatal one, which is
   * the last one taken: the output is the concatenation of the outputs taken.
   */
  function Sequence(results: seq<NodeResult>): (r: Run)
    ensures r.delivered <= |results|
    ensures r.failure.None? ==> r.delivered == |results| && forall k :: 0 <= k < |results| ==> results[k].failure.None?
    ensures r.failure.Some? ==> 0 < r.delivered && results[r.delivered - 1].failure == r.failure
    ensures forall k :: 0 <= k < r.delivered - 1 ==> results[k].failure.None?
    decreases |results|
  {
    if results == [] then Run([], 0, None)
    else if results[0].failure.Some? then Run(results[0].writes, 1, results[0].failure)
    else
      var rest := Sequence(results[1..]);
      Run(results[0].writes + rest.writes, 1 + rest.delivered, rest.failure)
  }

  /**
   * Taking `a` and then `b` is taking `a + b`: if `a` ends the run, nothing
   * of `b` is taken; otherwise `b`'s output follows `a`'s, unreordered.
   */
  lemma {:induction false} SequenceAppend(a: seq<NodeResult>, b: seq<NodeResult>)
    ensures Sequence(a).failure.Some? ==> Sequence(a + b) == Sequence(a)
    ensures Sequence(a).failure.None? ==>
              Sequence(a + b) == Run(Sequence(a).writes + Sequence(b).writes, |a| + Sequence(b).delivered, Sequence(b).failure)
    decreases |a|
  {
    if a == [] {
      assert a + b == b;
    } else {
      assert (a + b)[0] == a[0];
      assert (a + b)[1..] == a[1..] + b;
      if a[0].failure.None? {
        SequenceAppend(a[1..], b);
      }
    }
  }

  /** The output of a run is the outputs of the results taken, each kept whole and in order. */
  lemma {:induction false} SequenceWrites(results: seq<NodeResult>)
    ensures Sequence(results).writes == Concat(results[..Sequence(results).delivered])
    decreases |results|
  {
    if results != [] && results[0].failure.None? {
      SequenceWrites(results[1..]);
      var d := Sequence(results[1..]).delivered;
      assert results[..1 + d] == [results[0]] + results[1..][..d];
    } else if results != [] {
      assert results[..1] == [results[0]];
      assert Concat(results[..1]) == results[0].writes + Concat([]);
    }
  }

  /** Taking a single result: its output, one node taken, its failure. */
  lemma SequenceOne(result: NodeResult)
    ensures Sequence([result]) == Run(result.writes, 1, result.failure)
  {
    assert [result][1..] == [];
    assert result.writes + [] == result.writes;
  }

  /** The outputs of `results`, one after the other. */
  function Concat(results: seq<NodeResult>): seq<string>
  {
    if results == [] then [] else results[0].writes + Concat(results[1..])
  }

  datatype GenericGopher = GenericGopher(mainCmd: string)
  {
    /** The command run for `node`: `mainCmd` with the node's address followed by the shared `cmd`. */
    function CommandFor(node: Node, cmd: seq<string>): Invocation
    {
      Invocation(mainCmd, [node.address] + cmd)
    }

    /** The effect of running `node`, as the loop body of `exec` produces it. */
    function NodeRun(node: Node, cmd: seq<string>, run: Invocation -> Child): NodeResult
    {
      match run(CommandFor(node, cmd))
      case StdoutPipeFails => NodeResult([], Some(StdoutPipeError))
      case StderrPipeFails => NodeResult([], Some(StderrPipeError))
      case StartFails => NodeResult([], Some(StartError))
      case Ran(out, err, readFails) =>
        NodeResult(Prefixed(node.name, out + err), if readFails then Some(ReadError) else None)
    }

    /** The result of every node of `nodes`, position by position. */
    function Results(nodes: seq<Node>, cmd: seq<string>, run: Invocation -> Child): (r: seq<NodeResult>)
      ensures |r| == |nodes|
      ensures forall i :: 0 <= i < |nodes| ==> r[i] == NodeRun(nodes[i], cmd, run)
    {
      if nodes == [] then [] else [NodeRun(nodes[0], cmd, run)] + Results(nodes[1..], cmd, run)
    }

    lemma {:induction false} ResultsAppend(a: seq<Node>, b: seq<Node>, cmd: seq<string>, run: Invocation -> Child)
      ensures Results(a + b, cmd, run) == Results(a, cmd, run) + Results(b, cmd, run)
      decreases |a|
    {
      if a == [] {
        assert a + b == b;
      } else {
        assert (a + b)[0] == a[0];
        assert (a + b)[1..] == a[1..] + b;
        ResultsAppend(a[1..], b, cmd, run);
      }
    }

    /** Nodes taken one after the other, each run to the end, until one of them is fatal. */
    function RunAll(nodes: seq<Node>, cmd: seq<string>, run: Invocation -> Child): Run
    {
      Sequence(Results(nodes, cmd, run))
    }

    /** Running `a` and then `b` is running `a + b` (see `SequenceAppend`). */
    lemma RunAllAppend(a: seq<Node>, b: seq<Node>, cmd: seq<string>, run: Invocation -> Child)
      ensures RunAll(a, cmd, run).failure.Some? ==> RunAll(a + b, cmd, run) == RunAll(a, cmd, run)
      ensures RunAll(a, cmd, run).failure.None? ==>
                RunAll(a + b, cmd, run) ==
                Run(RunAll(a, cmd, run).writes + RunAll(b, cmd, run).writes,
                    |a| + RunAll(b, cmd, run).delivered,
                    RunAll(b, cmd, run).failure)
    {
      ResultsAppend(a, b, cmd, run);
      SequenceAppend(Results(a, cmd, run), Results(b, cmd, run));
    }

    /**
     * Taking one more node after a prefix that completed: its output is
     * added, and when it is fatal the run of the whole sequence ends there.
     */
    lemma RunAllStep(nodes: seq<Node>, k: nat, cmd: seq<string>, run: Invocation -> Child)
      requires k < |nodes| && RunAll(nodes[..k], cmd, run).failure.None?
      ensures RunAll(nodes[..k + 1], cmd, run) ==
                Run(RunAll(nodes[..k], cmd, run).writes + NodeRun(nodes[k], cmd, run).writes,
                    k + 1, NodeRun(nodes[k], cmd, run).failure)
      ensures NodeRun(nodes[k], cmd, run).failure.Some? ==> RunAll(nodes, cmd, run) == RunAll(nodes[..k + 1], cmd, run)
    {
      assert nodes[..k + 1] == nodes[..k] + [nodes[k]];
      RunAllAppend(nodes[..k], [nodes[k]], cmd, run);
      var one := NodeRun(nodes[k], cmd, run);
      assert Results([nodes[k]], cmd, run) == [one];
      SequenceOne(one);
      if NodeRun(nodes[k], cmd, run).failure.Some? {
        assert nodes == nodes[..k + 1] + nodes[k + 1..];
        RunAllAppend(nodes[..k + 1], nodes[k + 1..], cmd, run);
      }
    }

    /**
     * A run completes exactly when no node is fatal; otherwise it stops at the
     * first fatal node, reporting that node's error, after every node before
     * it ran to the end.
     */
    lemma RunAllStopsAtFirstFatal(nodes: seq<Node>, cmd: seq<string>, run: Invocation -> Child)
      ensures RunAll(nodes, cmd, run).failure.None? <==> forall k :: 0 <= k < |nodes| ==> NodeRun(nodes[k], cmd, run).failure.None?
      ensures RunAll(nodes, cmd, run).failure.None? ==> RunAll(nodes, cmd, run).delivered == |nodes|
      ensures RunAll(nodes, cmd, run).failure.Some? ==>
                var d := RunAll(nodes, cmd, run).delivered;
                && 0 < d <= |nodes|
                && NodeRun(nodes[d - 1], cmd, run).failure == RunAll(nodes, cmd, run).failure
                && forall k :: 0 <= k < d - 1 ==> NodeRun(nodes[k], cmd, run).failure.None?
    {
      var results := Results(nodes, cmd, run);
      if Sequence(results).failure.Some? {
        assert results[Sequence(results).delivered - 1].failure.Some?;
      }
    }

    /** What a run prints is the whole output of each node taken, node after node. */
    lemma RunAllWrites(nodes: seq<Node>, cmd: seq<string>, run: Invocation -> Child)
      ensures RunAll(nodes, cmd, run).writes == Concat(Results(nodes[..RunAll(nodes, cmd, run).delivered], cmd, run))
    {
      var results := Results(nodes, cmd, run);
      var d := Sequence(results).delivered;
      SequenceWrites(results);
      assert results[..d] == Results(nodes[..d], cmd, run);
    }

    /** The body of `exec`'s loop for one node: build the argument vector, start the child, print each scanned line. */
    method ExecNode(node: Node, cmd: seq<string>, run: Invocation -> Child) returns (writes: seq<string>, failure: Option<FatalError>)
      ensures NodeResult(writes, failure) == NodeRun(node, cmd, run)
    {
      var combineNode: seq<string> := [];
      combineNode := combineNode + [node.address];
      combineNode := combineNode + cmd;
      assert Invocation(mainCmd, combineNode) == CommandFor(node, cmd);
      writes := [];
      match run(Invocation(mainCmd, combineNode))
      case StdoutPipeFails =>
        return [], Some(StdoutPipeError);
      case StderrPipeFails =>
        return [], Some(StderrPipeError);
      case StartFails =>
        return [], Some(StartError);
      case Ran(out, err, readFails) =>
        var lines := out + err;
        for i := 0 to |lines|
          invariant |writes| == i
          invariant forall j :: 0 <= j < i ==> writes[j] == Emit(node.name, lines[j])
        {
          writes := writes + [Emit(node.name, lines[i])];
        }
        assert writes == Prefixed(node.name, lines);
        failure := if readFails then Some(ReadError) else None;
    }

    /**
     * `exec`: one worker's `range` over the queue. It takes the buffered nodes
     * in order and runs each, until the queue has nothing left or a node is
     * fatal. On an open, empty queue the `range` would wait for the close, so
     * the worker is run here on the closed queue: running out of buffered
     * nodes is then the end of the `range`.
     */
    method Exec(queue: JobQueue, cmd: seq<string>, run: Invocation -> Child) returns (writes: seq<string>, failure: Option<FatalError>)
      requires queue.Valid() && queue.closed
      modifies queue
      ensures queue.Valid() && queue.closed && queue.sent == old(queue.sent)
      ensures failure.None? ==> queue.items == []
      ensures writes == RunAll(old(queue.items), cmd, run).writes
      ensures failure == RunAll(old(queue.items), cmd, run).failure
      ensures queue.items == old(queue.items)[RunAll(old(queue.items), cmd, run).delivered..]
      ensures queue.received == old(queue.received) + old(queue.items)[..RunAll(old(queue.items), cmd, run).delivered]
    {
      ghost var pending := queue.items;
      ghost var k := 0;
      writes := [];
      failure := None;
      assert pending[..0] == [];
      while failure.None?
        invariant queue.Valid() && queue.closed && queue.sent == old(queue.sent)
        invariant 0 <= k <= |pending| && queue.items == pending[k..]
        invariant queue.received == old(queue.received) + pending[..k]
        invariant failure.None? ==> RunAll(pending[..k], cmd, run).failure.None? && writes == RunAll(pending[..k], cmd, run).writes
        invariant failure.Some? ==> RunAll(pending, cmd, run) == Run(writes, k, failure)
        decreases |queue.items|
      {
        var received := queue.Recv();
        if !received.Item? {
          break;
        }
        var w, f := ExecNode(received.node, cmd, run);
        RunAllStep(pending, k, cmd, run);
        writes := writes + w;
        k := k + 1;
        failure := f;
      }
      assert failure.None? ==> pending[..k] == pending;
    }
  }

  /** `newSSHWorker`: the remote program is `ssh`. */
  function NewSSHWorker(): (g: GenericGopher)
    ensures g.mainCmd == "ssh"
  {
    GenericGopher("ssh")
  }

  /** The argument vector is the node's address followed by `cmd`, unchanged and the same for every node. */
  lemma CommandShape(g: GenericGopher, node: Node, cmd: seq<string>)
    ensures g.CommandFor(node, cmd).program == g.mainCmd
    ensures |g.CommandFor(node, cmd).args| == |cmd| + 1
    ensures g.CommandFor(node, cmd).args[0] == node.address && g.CommandFor(node, cmd).args[1..] == cmd
  {
  }

  /**
   * What one node prints: nothing when a pipe or the start fails; otherwise
   * each stdout line and then each stderr line, in order, under the node's label.
   */
  lemma NodeOutput(g: GenericGopher, node: Node, cmd: seq<string>, run: Invocation -> Child)
    ensures !run(g.CommandFor(node, cmd)).Ran? ==> g.NodeRun(node, cmd, run).writes == [] && g.NodeRun(node, cmd, run).failure.Some?
    ensures run(g.CommandFor(node, cmd)).Ran? ==>
              var c := run(g.CommandFor(node, cmd));
              var w := g.NodeRun(node, cmd, run).writes;
              && |w| == |c.stdout| + |c.stderr|
              && (forall i :: 0 <= i < |c.stdout| ==> w[i] == Emit(node.name, c.stdout[i]))
              && (forall j :: 0 <= j < |c.stderr| ==> w[|c.stdout| + j] == Emit(node.name, c.stderr[j]))
              && (g.NodeRun(node, cmd, run).failure.Some? <==> c.readFails)
  {
    var c := run(g.CommandFor(node, cmd));
    if c.Ran? {
      var lines := c.stdout + c.stderr;
      forall j | 0 <= j < |c.stderr| ensures lines[|c.stdout| + j] == c.stderr[j] { }
    }
  }
}
