# gsh: a verified model of the parallel remote-command dispatcher

`gsh` runs one command on many hosts at once. It resolves a list of nodes
(from a comma-separated `-m` list or a group file), starts a fixed number of
workers that take nodes off a bounded job queue, runs `ssh <address> <cmd...>`
for each node, and prints every line the child writes as `<label>: <line>`.

This project models the sequential core of `main.go` in Dafny and proves
what it promises:

- `text.dfy` (module `Text`): Go's `strings.Split` with a one-character
  separator, `strings.TrimSpace` (with the white-space set of Go's
  `unicode.IsSpace`) and `strings.HasPrefix`, with their round trips and
  characterisations.
- `nodes.dfy` (module `Nodes`): `Node` and `parseFileOrList`, as loop
  methods that build the node list, proved against the specification
  functions `NodesOf` and `GroupEntries`.
- `channel.dfy` (module `Channel`): the buffered channel of nodes, as the
  class `JobQueue` (a bounded FIFO with a `closed` flag and ghost histories
  of what was sent and received).
- `executor.dfy` (module `Executor`): `GenericGopher`, the argument vector
  for a node, the `label: line` output of one node, and the worker loop
  `exec` over the queue; `RunAll` is the specification of running nodes one
  after the other until a fatal error.
- `pool.dfy` (module `Pool`): the class `GopherPool` with `newGopherPool`
  and `begin`.
- `wrappers.dfy` (module `Wrappers`): `Option` and `Result`.

The child process is an oracle `run: Invocation -> Child` that says, for the
invocation, whether the stdout pipe, the stderr pipe or the start fails, or
which lines the scanner yields from stdout and from stderr and whether reading
then fails. The group directory is a map from group name to file contents.

`main.go` keeps empty machine-list pieces (so `-m "a,,b"` yields a node with
an empty address), and it reads the two output streams one after the other
(`io.MultiReader`: all of stdout, then all of stderr), not merged as they
arrive.

`begin` is modelled by one schedule of the goroutines: the producer sends
the nodes in order; when the queue is full a waiting worker takes the oldest
node and runs it; the producer closes the queue after the last send; the
workers then drain it. A `log.Fatal` in a worker ends the run at that node
(`Aborted`). With `-f 0` the queue has no buffer and no worker, so a
non-empty node list can never be sent (`Deadlocked`, the Go runtime's
"all goroutines are asleep" stop).

## Model

| member | source | states |
|---|---|---|
| `Text.Split` | main.go:144 | `strings.Split` yields one piece more than there are separators, and no piece contains the separator |
| `Text.SplitJoin` | main.go:144 | joining the pieces with the separator gives back the input: nothing is trimmed or dropped |
| `Text.JoinSplit` | main.go:144 | splitting a join of separator-free pieces gives back exactly those pieces, empty ones included |
| `Text.SplitAfterPiece` | main.go:161 | a separator-free first piece followed by the separator splits off as one piece |
| `Text.SplitNoSeparator` | main.go:161 | a string without the separator is a single piece |
| `Text.TrimSpace` | main.go:164 | `strings.TrimSpace`: drops the white space of Go's `unicode.IsSpace` (ASCII `\t`..`\r` and space, U+0085, U+00A0, U+1680, U+2000..U+200A, U+2028, U+2029, U+202F, U+205F, U+3000) at both ends; characterised by `TrimSpaceSlice`, `TrimSpaceBlank` and `TrimSpaceIdempotent` |
| `Text.TrimLeftSpec` | main.go:164 | leading trim leaves a suffix starting with a non-space and drops only white space |
| `Text.TrimRightSpec` | main.go:164 | trailing trim leaves a prefix ending with a non-space and drops only white space |
| `Text.TrimSpaceSlice` | main.go:164 | `TrimSpace` is the slice between the white space at both ends and neither starts nor ends with white space |
| `Text.TrimSpaceBlank` | main.go:166 | a trimmed line is empty exactly when the line is all white space |
| `Text.TrimSpaceIdempotent` | main.go:164-166 | trimming the trimmed line again changes nothing |
| `Text.HasPrefix` | main.go:166 | `strings.HasPrefix`: the string starts with the prefix; `HasPrefixIff` states it as "is the prefix followed by something" |
| `Text.HasPrefixIff` | main.go:166 | a string has the prefix exactly when it is the prefix followed by some rest |
| `Nodes.Kept` | main.go:166 | the group-file line test as written (trimmed twice, non-empty, no leading `#`); characterised by `KeptIffEntry` |
| `Nodes.NodesOf` | main.go:145 | one node per name, in order, with label and address both equal to the name (a node is the datatype `Nodes.Node`, the `Node` struct of `main.go:111-114`, whose `label` field is called `name` because `label` is a Dafny keyword) |
| `Nodes.NodesOfAppend` | main.go:144-146 | building nodes commutes with concatenation |
| `Nodes.GroupEntries` | main.go:163-169 | no kept entry is blank or starts with `#`, and there are at most as many entries as lines |
| `Nodes.KeptIffEntry` | main.go:166 | the line test (trim twice, then test) is the same as: trimmed line non-empty and not starting with `#` |
| `Nodes.GroupEntriesAppend` | main.go:163-169 | the filter works line by line: order is kept across consecutive blocks of lines |
| `Nodes.GroupEntriesMembers` | main.go:163-169 | an entry is in the output exactly when it is the trimmed form of some kept line |
| `Nodes.GroupEntriesTrimmed` | main.go:164-167 | every entry is already trimmed |
| `Nodes.GroupEntriesAllKept` | main.go:163-169 | when no line is filtered out, the entries are the trimmed lines one for one |
| `Nodes.ParseMachineList` | main.go:143-149 | the `-m` list gives `Split(machines, ",")` as nodes in order, one more than the commas, and its addresses join back to the list |
| `Nodes.TrimAndTest` | main.go:164-166 | the trimmed line is a fixed point of trimming, and a line is kept exactly when its trimmed form is neither blank nor starts with `#` |
| `Nodes.ParseGroupFile` | main.go:161-171 | the group file gives a node per trimmed line that is neither blank nor a comment, in order |
| `Nodes.ParseFileOrList` | main.go:140-172 | a non-empty machine list wins and the group is not looked at; no list and no group is an error; a missing group file is an error; otherwise the group file's entries |
| `Nodes.MachineListExample` | main_test.go:13-25 | `node1,node2,node3` splits into the three names in order, so `ParseMachineList` gives those three nodes |
| `Nodes.GroupFileExample` | main_test.go:27-56 | the test's group file gives exactly `node1`, `node2`, `node3`: no blank entry, no `node4` |
| `Channel.JobQueue.constructor` | main.go:42 | `make(chan Node, n)`: open, empty, capacity `n` |
| `Channel.JobQueue.Send` | main.go:58 | a send on an open channel with room appends the node at the back |
| `Channel.JobQueue.Recv` | main.go:75 | a receive takes the oldest node, even after the close; closed and empty ends the `range`; open and empty would block |
| `Channel.JobQueue.Close` | main.go:61 | closing keeps the buffered nodes and allows no further send or close |
| `Executor.Emit` | main.go:100 | the `"%s: %s\n"` line of `Printf`: label, `": "`, text, newline; characterised by `EmitRoundTrip` and `EmitInjective` |
| `Executor.EmitRoundTrip` | main.go:100 | a printed line is the label, `": "`, the text and a newline, and the text can be read back |
| `Executor.EmitInjective` | main.go:100 | under one label, distinct texts print as distinct lines |
| `Executor.Prefixed` | main.go:99-101 | every scanned line, in order, printed under the label |
| `Executor.PrefixedRoundTrip` | main.go:99-101 | each printed line of a node gives back the scanned line at the same position |
| `Executor.NewSSHWorker` | main.go:70-72 | the default remote program is `ssh` |
| `Executor.GenericGopher.CommandFor` | main.go:76-80 | the invocation `exec.Command(mainCmd, address, cmd...)`; characterised by `CommandShape` |
| `Executor.CommandShape` | main.go:76-80 | the command is `mainCmd` with the node's address followed by `cmd` unchanged |
| `Executor.GenericGopher.NodeRun` | main.go:80-105 | what one node prints and whether it is fatal, from the child's behaviour; characterised by `NodeOutput`, and `ExecNode` is proved equal to it |
| `Executor.NodeOutput` | main.go:82-105 | a failed pipe or start prints nothing and is fatal; otherwise each stdout line then each stderr line is printed in order under the label, and the run is fatal exactly when reading fails |
| `Executor.Sequence` | main.go:75-108 | nodes are taken one after the other until the first fatal one, which is the last one taken; the run completes only if none is fatal |
| `Executor.SequenceAppend` | main.go:75-108 | taking two blocks of nodes in turn is taking their concatenation; a fatal first block means the second is never started |
| `Executor.SequenceWrites` | main.go:99-101 | the output of a run is the whole output of each node taken, node after node |
| `Executor.GenericGopher.RunAll` | main.go:75-108 | the specification of running nodes in order until the first fatal one; characterised by `RunAllStopsAtFirstFatal`, `RunAllWrites` and `RunAllAppend` |
| `Executor.GenericGopher.Results` | main.go:75-105 | each node's printed lines and fatal error, position by position, one result per node |
| `Executor.GenericGopher.ResultsAppend` | main.go:75-108 | per-node results of a concatenation are the concatenated results |
| `Executor.GenericGopher.RunAllAppend` | main.go:75-108 | running `a` then `b` is running `a + b`, with `b`'s output after `a`'s |
| `Executor.GenericGopher.RunAllStep` | main.go:75-105 | one more node after a completed prefix adds its output after the prefix's, and a fatal one ends the whole run there |
| `Executor.GenericGopher.RunAllStopsAtFirstFatal` | main.go:83-105 | a run completes every node exactly when no node is fatal; otherwise it stops at the first fatal node with that node's error |
| `Executor.GenericGopher.RunAllWrites` | main.go:99-101 | a node's printed lines stay together and in order in the output of a run |
| `Executor.GenericGopher.ExecNode` | main.go:76-107 | one node: the argument vector `[address] ++ cmd`, the pipe, start and read errors, and the label-prefixed lines of stdout then stderr |
| `Executor.GenericGopher.Exec` | main.go:74-109 | a worker takes the queued nodes in FIFO order and runs each until the queue is drained or a node is fatal |
| `Pool.GopherPool.constructor` | main.go:41-44 | `newGopherPool`: the queue is open, empty and holds up to twice the worker count |
| `Pool.GopherPool.TakeOldest` | main.go:75-101 | one pass of a waiting worker: the oldest node leaves the queue and is run |
| `Pool.GopherPool.Produce` | main.go:57-59 | every node is sent in order, a worker making room when the queue is full; no worker means the send never happens |
| `Pool.GopherPool.Begin` | main.go:46-64 | nodes are sent in input order and the queue is closed once, only after the last send; the nodes received are the input in order, each once; the output is each node's output in turn; a fatal node stops the run; an empty input closes the queue with nothing sent or run |

## Left out

- Consul lookups (`getNodes`' `consul` branch, `getConsulServiceNodes`, `getConsulNodes`): network calls into a foreign library. `getNodes` itself is not modelled; with a `conftype` other than `local` or `consul` it returns no nodes.
- File reading and `path.Join(groupPath, group)`: the group directory is a map from group name to contents, and "file not found" is a missing key.
- Flags, the global `config`, `main` and its final completion message: command-line plumbing.
- Real processes (`exec.Command`, the pipes, `Start`, `Wait`) and the exit status: the child is an oracle from the invocation to its scanned lines and errors, so the same invocation always behaves the same way.
- `bufio.Scanner` line splitting: each stream's lines are given. Because of that the model does not capture a last stdout line without a newline running into the first stderr line, nor the scanner's token-size limit (it shows up only as the read error).
- Go strings are bytes; the model works on decoded characters and does not model invalid UTF-8 in `TrimSpace`.
- Goroutines, `sync.WaitGroup` and blocking: the model runs one sequential schedule. It does not capture the interleaving of different nodes' lines when several workers run at once, which worker runs which node, the concurrency bound, or a stdout pipe that blocks because the child filled its stderr pipe.
- `log.Fatal`: an `Aborted` outcome ends the run; process termination and the message on stderr are not modelled.
- A negative `-f`, which makes `make` panic: `workerCount` is a natural number.
- The `Gopher` interface and the test stub `TestWorker`: the pool always uses `GenericGopher`; a test stub that only checks its arguments corresponds to `CommandShape`.
