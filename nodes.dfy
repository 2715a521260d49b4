/**
 * Local node-list resolution: the comma-separated machine list (`-m`) and
 * the group file (`-g`), turned into an ordered sequence of nodes.
 */
module Nodes {
  import opened Wrappers
  import opened Text

  /** One remote target: the label printed before its output and the address handed to the remote program. */
  datatype Node = Node(name: string, address: string)

  /** Why resolution stops before any node is dispatched (`parseFileOrList` calls `log.Fatal`). */
  datatype ConfigError =
    | MissingNodeSource              // neither a machine list nor a group name was given
    | GroupFileNotFound(group: string) // the group file could not be read

  /** A node per name, with label and address both equal to the name. */
  function NodesOf(names: seq<string>): (r: seq<Node>)
    ensures |r| == |names|
    ensures forall i :: 0 <= i < |r| ==> r[i].name == names[i] && r[i].address == names[i]
  {
    if names == [] then [] else [Node(names[0], names[0])] + NodesOf(names[1..])
  }

  /** The addresses of `nodes`, in order. */
  function Addresses(nodes: seq<Node>): (r: seq<string>)
    ensures |r| == |nodes|
    ensures forall i :: 0 <= i < |r| ==> r[i] == nodes[i].address
  {
    if nodes == [] then [] else [nodes[0].address] + Addresses(nodes[1..])
  }

  /** The test a group-file line must pass, as `main.go:166` writes it (it trims twice). */
  predicate Kept(line: string)
  {
    TrimSpace(TrimSpace(line)) != "" && !HasPrefix(TrimSpace(line), "#")
  }

  /** The trimmed lines that pass `Kept`, in their original order. */
  function GroupEntries(lines: seq<string>): (r: seq<string>)
    ensures |r| <= |lines|
    ensures forall k :: 0 <= k < |r| ==> r[k] != "" && !HasPrefix(r[k], "#")
  {
    if lines == [] then []
    else
      (if Kept(lines[0]) then [TrimSpace(lines[0])] else []) + GroupEntries(lines[1..])
  }

  /** The second trim at `main.go:166` changes nothing: a line is kept iff its trimmed form is neither blank nor a comment. */
  lemma KeptIffEntry(line: string)
    ensures Kept(line) <==> TrimSpace(line) != "" && !HasPrefix(TrimSpace(line), "#")
  {
    TrimSpaceIdempotent(line);
  }

  /** Filtering works line by line: the entries of two consecutive blocks of lines are the two blocks' entries in order. */
  lemma {:induction false} GroupEntriesAppend(a: seq<string>, b: seq<string>)
    ensures GroupEntries(a + b) == GroupEntries(a) + GroupEntries(b)
    decreases |a|
  {
    if a != [] {
      assert (a + b)[0] == a[0];
      assert (a + b)[1..] == a[1..] + b;
      GroupEntriesAppend(a[1..], b);
    } else {
      assert a + b == b;
    }
  }

  /** One more line adds its trimmed form when it is kept, and nothing otherwise. */
  lemma GroupEntriesStep(lines: seq<string>, i: nat)
    requires i < |lines|
    ensures GroupEntries(lines[..i + 1]) == GroupEntries(lines[..i]) + (if Kept(lines[i]) then [TrimSpace(lines[i])] else [])
  {
    assert lines[..i + 1] == lines[..i] + [lines[i]];
    GroupEntriesAppend(lines[..i], [lines[i]]);
  }

  /** An entry of the output is exactly the trimmed form of some kept input line. */
  lemma {:induction false} GroupEntriesMembers(lines: seq<string>, e: string)
    ensures e in GroupEntries(lines) <==> exists i :: 0 <= i < |lines| && Kept(lines[i]) && TrimSpace(lines[i]) == e
    decreases |lines|
  {
    if lines != [] {
      GroupEntriesMembers(lines[1..], e);
      if exists i :: 0 <= i < |lines| && Kept(lines[i]) && TrimSpace(lines[i]) == e {
        var i :| 0 <= i < |lines| && Kept(lines[i]) && TrimSpace(lines[i]) == e;
        if i > 0 {
          assert lines[1..][i - 1] == lines[i];
        }
      }
      if e in GroupEntries(lines[1..]) {
        var j :| 0 <= j < |lines| - 1 && Kept(lines[1..][j]) && TrimSpace(lines[1..][j]) == e;
        assert lines[j + 1] == lines[1..][j];
      }
    }
  }

  /** Every entry is already trimmed: trimming it again changes nothing. */
  lemma GroupEntriesTrimmed(lines: seq<string>, k: nat)
    requires k < |GroupEntries(lines)|
    ensures TrimSpace(GroupEntries(lines)[k]) == GroupEntries(lines)[k]
  {
    var e := GroupEntries(lines)[k];
    GroupEntriesMembers(lines, e);
    var i :| 0 <= i < |lines| && Kept(lines[i]) && TrimSpace(lines[i]) == e;
    TrimSpaceIdempotent(lines[i]);
  }

  /** When every line is kept, the entries are the trimmed lines, one for one. */
  lemma {:induction false} GroupEntriesAllKept(lines: seq<string>)
    requires forall i :: 0 <= i < |lines| ==> Kept(lines[i])
    ensures |GroupEntries(lines)| == |lines|
    ensures forall i :: 0 <= i < |lines| ==> GroupEntries(lines)[i] == TrimSpace(lines[i])
    decreases |lines|
  {
    if lines != [] {
      GroupEntriesAllKept(lines[1..]);
    }
  }

  /** Concatenation commutes with `NodesOf`. */
  lemma {:induction false} NodesOfAppend(a: seq<string>, b: seq<string>)
    ensures NodesOf(a + b) == NodesOf(a) + NodesOf(b)
  {
    assert |NodesOf(a + b)| == |NodesOf(a) + NodesOf(b)|;
    forall i | 0 <= i < |a + b| ensures NodesOf(a + b)[i] == (NodesOf(a) + NodesOf(b))[i] {
      if i >= |a| { assert (a + b)[i] == b[i - |a|]; }
    }
  }

  /**
   * The `-m` branch of `parseFileOrList`: a node per comma-separated piece,
   * empty pieces included, nothing trimmed.
   */
  method ParseMachineList(machines: string) returns (nodes: seq<Node>)
    ensures nodes == NodesOf(Split(machines, ','))
    ensures |nodes| == Count(machines, ',') + 1
    ensures Join(Addresses(nodes), ',') == machines
  {
    nodes := [];
    var pieces := Split(machines, ',');
    for i := 0 to |pieces|
      invariant |nodes| == i
      invariant forall j :: 0 <= j < i ==> nodes[j] == Node(pieces[j], pieces[j])
    {
      nodes := nodes + [Node(pieces[i], pieces[i])];
    }
    assert nodes == NodesOf(pieces);
    assert Addresses(nodes) == pieces;
    SplitJoin(machines, ',');
  }

  /**
   * The loop body's test for one line of the group file: the trimmed line is
   * already trimmed, and the line is kept exactly when that trimmed form is
   * neither blank nor a comment.
   */
  method TrimAndTest(line: string) returns (trimmed: string, keep: bool)
    ensures trimmed == TrimSpace(line) && keep == Kept(line)
    ensures TrimSpace(trimmed) == trimmed
    ensures keep <==> trimmed != "" && !HasPrefix(trimmed, "#")
  {
    KeptIffEntry(line);
    TrimSpaceIdempotent(line);
    trimmed := TrimSpace(line);
    keep := TrimSpace(trimmed) != "" && !HasPrefix(trimmed, "#");
  }

  /**
   * The group-file branch of `parseFileOrList`, over the file's contents:
   * a node per line that is neither blank nor a comment once trimmed, in order.
   */
  method ParseGroupFile(contents: string) returns (nodes: seq<Node>)
    ensures nodes == NodesOf(GroupEntries(Split(contents, '\n')))
  {
    nodes := [];
    var rawNodes := Split(contents, '\n');
    for i := 0 to |rawNodes|
      invariant nodes == NodesOf(GroupEntries(rawNodes[..i]))
    {
      var trimmed, keep := TrimAndTest(rawNodes[i]);
      GroupEntriesStep(rawNodes, i);
      if keep {
        NodesOfAppend(GroupEntries(rawNodes[..i]), [trimmed]);
        nodes := nodes + [Node(trimmed, trimmed)];
      }
    }
    assert rawNodes[..|rawNodes|] == rawNodes;
  }

  /**
   * `parseFileOrList`. A non-empty machine list wins and the group is never
   * looked at; otherwise a group name is required and its file (looked up in
   * `groupFiles`, which stands for the group directory) must exist.
   */
  method ParseFileOrList(machines: string, group: string, groupFiles: map<string, string>)
    returns (r: Result<seq<Node>, ConfigError>)
    ensures machines != "" ==> r == Ok(NodesOf(Split(machines, ',')))
    ensures machines == "" && group == "" ==> r == Err(MissingNodeSource)
    ensures machines == "" && group != "" && group !in groupFiles ==> r == Err(GroupFileNotFound(group))
    ensures machines == "" && group != "" && group in groupFiles ==>
              r == Ok(NodesOf(GroupEntries(Split(groupFiles[group], '\n'))))
  {
    if machines != "" {
      var nodes := ParseMachineList(machines);
      return Ok(nodes);
    }
    if group == "" {
      return Err(MissingNodeSource);
    }
    if group !in groupFiles {
      return Err(GroupFileNotFound(group));
    }
    var nodes := ParseGroupFile(groupFiles[group]);
    return Ok(nodes);
  }

  /** The machine list of `TestLocalMachineListLoading` in `main_test.go` splits into its three names, in order (each then a node with that label and address). */
  lemma MachineListExample()
    ensures Split("node1,node2,node3", ',') == ["node1", "node2", "node3"]
  {
    JoinSplit(["node1", "node2", "node3"], ',');
    assert Join(["node1", "node2", "node3"], ',') == "node1,node2,node3";
  }

  /** The lines of the group file of `TestLocalMachineGroupLoading` in `main_test.go`. */
  lemma GroupFileExampleLines()
    ensures Split("   \nnode1\nnode2\nnode3\n#node4\n", '\n') == ["   ", "node1", "node2", "node3", "#node4", ""]
  {
    JoinSplit(["   ", "node1", "node2", "node3", "#node4", ""], '\n');
    assert Join(["   ", "node1", "node2", "node3", "#node4", ""], '\n') == "   \nnode1\nnode2\nnode3\n#node4\n";
  }

  /** The group file of `TestLocalMachineGroupLoading`: the blank line, the comment and the empty last piece are skipped. */
  lemma GroupFileExample()
    ensures GroupEntries(Split("   \nnode1\nnode2\nnode3\n#node4\n", '\n')) == ["node1", "node2", "node3"]
  {
    GroupFileExampleLines();
    GroupFileExampleEntries();
  }

  /** The entries of those lines. */
  lemma GroupFileExampleEntries()
    ensures GroupEntries(["   ", "node1", "node2", "node3", "#node4", ""]) == ["node1", "node2", "node3"]
  {
  }
}
