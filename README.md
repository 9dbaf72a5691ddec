# Loop-kernel partitioning and the fused SigmoidMultiply operator

This project models two pieces of the nGraph CPU backend.

- **Loop-kernel partitioning.** `test/cpu_fusion.cpp` holds the `LoopKernelCollector` class
  and the earlier `graph_partition3` loop. Both walk a computation graph in the order
  `Function::get_ordered_ops` gives. They collect the elementwise arithmetic nodes
  (`is_fusable`) into groups that one loop kernel could run. A group is a list of nodes
  keyed by its *head*, its first member. A node with no grouped argument starts its own
  group. Any other node merges the groups of all its grouped arguments into the group
  whose head is smallest in pointer order, and then appends itself to that group. Groups
  with fewer than `MIN_NODES_TO_FUSE` members are finally dropped.
- **The SigmoidMultiply operator.** `src/ngraph/runtime/cpu/op/sigmoid_mul.cpp` defines a
  node that replaces `act_1(x) * act_2(y)`, where each activation is a Tanh or a Sigmoid.
  The model covers its classification of activations, its constructor's checks, its
  `copy_with_new_args`, and the deltas its `generate_adjoints` hands to the adjoints.

The graph is an arena (`Graph.Graph`, a sequence of nodes addressed by index). Each node
has an operator kind, its argument list, an element type and a shape. `shared_ptr`
comparison with `<` is a parameter `addr: NodeId -> nat`, so every result holds for any
address assignment. `std::unordered_map::insert`, which does not overwrite an existing
key, is `Partition.Insert`.

Modules and files:

- `wrappers.dfy` (Wrappers): Option, Result, and the `std::out_of_range` error that `unordered_map::at` throws.
- `graph.dfy` (Graph): nodes, kinds, `is_fusable`, valid and topological orders.
- `partition.dfy` (Partition): the partitioner as functions over the pair of maps
  `(heads, graphs)`, which is `m_heads` and `m_graphs`. It also holds the partition
  invariant and the lemmas stating what the result satisfies.
- `loop_kernel_collector.dfy` (LoopKernel): the `LoopKernelCollector` class. Its fields are
  the two maps and the per-node scratch state. Each method is proved against the functions
  of Partition.
- `leader_map.dfy` (LeaderMap): `get_leader` and `update_leader`/`update_leader2`.
- `graph_partition3.dfy` (GraphPartition3): the inline loop of the `graph_partition3` test,
  as a method over local maps proved against its own functions.
- `collector_as_written.dfy` (CollectorAsWritten): the collector's merge loop without the
  guard the model adds (see Findings), and the exact condition under which it agrees with
  the guarded loop.
- `partition_scenarios.dfy` (PartitionScenarios): the graphs of the `graph_partition4` and
  `graph_partition5` tests, walked node by node.
- `sigmoid_multiply.dfy` (SigmoidMultiply): the SigmoidMultiply operator.

## Model

| member | source | states |
|---|---|---|
| Graph.LeavesAndSelectorsNotFusable | test/cpu_fusion.cpp:1576-1580 | Parameters, GetOutputElement and Sigmoid nodes are never fusable |
| LeaderMap.GetLeader | test/cpu_fusion.cpp:1510-1518 | The loop returns Leader(groups, oldn): it follows the map to the first node mapped to itself, and fails with out_of_range when it meets a node that is not a key |
| LeaderMap.LeaderIsFixpoint | test/cpu_fusion.cpp:1510-1518 | A leader get_leader returns is a key mapped to itself |
| LeaderMap.LeaderBoundIrrelevant | test/cpu_fusion.cpp:1510-1518 | The result does not depend on the step bound used to show that the walk ends |
| LeaderMap.UpdateLeader | test/cpu_fusion.cpp:1548-1574 | Keys are unchanged; every value equal to oldn becomes newn; every other value is unchanged |
| LeaderMap.Relabel | test/cpu_fusion.cpp:1548-1559 | Keys are unchanged, and when oldn != newn no value is oldn afterwards |
| LeaderMap.MergeIsUpdateLeader | test/cpu_fusion.cpp:1979-1982 | On the heads map, merging src into dst is update_leader(src, dst) |
| LeaderMap.HeadIsLeader | test/cpu_fusion.cpp:1510-1518 | In a partition state, get_leader on m_heads stops after one lookup and returns the node's head |
| Partition.SmallestHeadArgIsFirstSmallest | test/cpu_fusion.cpp:2005-2016 | The chosen argument's head is no larger than any grouped argument's head, and every grouped argument before it has a strictly larger head, so ties go to the earliest |
| Partition.SmallestHeadArg | test/cpu_fusion.cpp:2005-2016 | No argument is chosen iff no argument is grouped; a chosen argument is grouped and is one of the arguments |
| Partition.ArgsWithHeadsExact | test/cpu_fusion.cpp:2005-2016 | m_args_with_heads holds exactly the arguments that have a head |
| Partition.NoGroupedArgs | test/cpu_fusion.cpp:2005-2016 | With no grouped argument the list of grouped arguments is empty |
| Partition.MergeGroups | test/cpu_fusion.cpp:1970-1985 | For src != dst: dst's group becomes old dst followed by old src; key src is gone; the other groups are unchanged; nodes headed by src now have head dst and all other heads are unchanged |
| Partition.MergeRelabelsMembers | test/cpu_fusion.cpp:1979-1982 | Under the invariant, re-heading the members of src's group is re-heading every node headed by src |
| Partition.MergePreservesValid | test/cpu_fusion.cpp:1970-1985 | Merging two distinct groups keeps the partition invariant |
| Partition.MergeKeepsOrdered | test/cpu_fusion.cpp:1925-1926 | Merging two distinct groups keeps every member after its in-group producers |
| Partition.MergeArgGroupsJoins | test/cpu_fusion.cpp:1929-1935 | After the merge loop, every grouped argument and every node already in the smallest group has head smallest_head |
| Partition.MergeArgGroupsPreservesValid | test/cpu_fusion.cpp:1929-1935 | The merge loop keeps the partition invariant |
| Partition.StartGroupKeepsValid | test/cpu_fusion.cpp:1911-1915 | A new singleton group [n] headed by n keeps the invariant and changes no other group or head |
| Partition.JoinGroupKeepsValid | test/cpu_fusion.cpp:1937-1939 | Appending a new node to a group and heading it there keeps the invariant |
| Partition.StepStartsGroup | test/cpu_fusion.cpp:1911-1915 | A fusable node with no grouped argument becomes its own head, with group exactly [n], and nothing else changes |
| Partition.StepJoinsArgGroup | test/cpu_fusion.cpp:1917-1940 | When all the grouped arguments are one node a, nothing is merged and n joins the group of a's head |
| Partition.StepPreservesValid | test/cpu_fusion.cpp:1906-1945 | One node of the walk keeps the partition invariant |
| Partition.StepPreservesOrder | test/cpu_fusion.cpp:1921-1939 | One node of the walk keeps groups closed under argument edges and every member after its in-group producers |
| Partition.RunValid | test/cpu_fusion.cpp:1904-1947 | After any valid order, every group is non-empty and starts with its head, every member is headed by its key, every headed node is in its head's group, and no group repeats a node |
| Partition.RunOrdered | test/cpu_fusion.cpp:1921-1939 | Over a topological order, a fusable node and its grouped arguments share a group, and no member precedes an in-group producer |
| Partition.RunPartitions | test/cpu_fusion.cpp:1904-1947 | Before pruning, each visited fusable node lies in exactly one group, exactly once, and each group's key is its first member |
| Partition.PrunedSound | test/cpu_fusion.cpp:1955-1968 | Every surviving group has at least the minimum size, starts with its head, and shares no node with another |
| Partition.GroupedIffFusable | test/cpu_fusion.cpp:1904-1908 | A node gets a head iff it is visited and is_fusable; a node that is not fusable is in no group |
| Partition.MergeArgGroupsRooted | test/cpu_fusion.cpp:1917-1935 | While the merge loop runs, every member of the smallest head's group is joined to that head by argument edges inside the group plus n, and every other group is one the loop started from |
| Partition.StepKeepsRooted | test/cpu_fusion.cpp:1906-1945 | One node of the walk keeps every group joined to its head by argument edges inside the group |
| Partition.RunConnected | test/cpu_fusion.cpp:1919-1922 | After any valid order, any two members of a group are joined by a chain of argument edges, followed either way, that never leaves the group |
| Partition.PartitionSound | test/cpu_fusion.cpp:1899-2025 | get_graphs: every group has at least the minimum size, is keyed by its first member, lists distinct visited fusable nodes, and is connected through argument edges inside it; no two groups share a node; over a topological order producers come before consumers |
| Partition.PartitionKeepsEdgesTogether | test/cpu_fusion.cpp:1899-2025 | A fusable node and a fusable argument of it are reported in the same group or are both dropped |
| LoopKernel.LoopKernelCollector.constructor | test/cpu_fusion.cpp:1902-1950 | Walks the order and prunes; get_graphs is then FusedGroups(g, addr, order, min), and the heads are the visited fusable nodes |
| LoopKernel.LoopKernelCollector.Visit | test/cpu_fusion.cpp:1906-1945 | One turn of the constructor's loop is Step, and the scratch state is clear again |
| LoopKernel.LoopKernelCollector.JoinSmallestGroup | test/cpu_fusion.cpp:1918-1944 | Merges the argument groups, appends n to the smallest head's group, inserts n's head, and clears the scratch state |
| LoopKernel.LoopKernelCollector.MergeArgGroupsOf | test/cpu_fusion.cpp:1929-1935 | The merge loop leaves the state MergeArgGroups describes |
| LoopKernel.LoopKernelCollector.CollectFusableArgs | test/cpu_fusion.cpp:1999-2019 | Leaves the maps alone; m_arg_with_smallest_head and m_args_with_heads become SmallestHeadArg and ArgsWithHeads of n's arguments |
| LoopKernel.LoopKernelCollector.Merge | test/cpu_fusion.cpp:1970-1985 | The new state is MergeGroups(old state, src, dst); the scratch state is unchanged |
| LoopKernel.LoopKernelCollector.PruneGraphs | test/cpu_fusion.cpp:1955-1968 | m_graphs becomes Prune(old m_graphs, min); m_heads is unchanged |
| GraphPartition3.GraphPartition3 | test/cpu_fusion.cpp:1817-1896 | The groups left are exactly the groups of Run3 with at least MIN_NODES_TO_FUSE = 3 members |
| GraphPartition3.Visit3 | test/cpu_fusion.cpp:1821-1882 | One turn of the walk is Step3 |
| GraphPartition3.ScanArgs | test/cpu_fusion.cpp:1823-1842 | The argument scan yields SmallestHeadArg and ArgsWithHeads, as collect_fusable_args does |
| GraphPartition3.JoinArgGroups | test/cpu_fusion.cpp:1861-1879 | The argument groups are absorbed into the smallest head's group, then n is appended and headed there |
| GraphPartition3.MergeArgGroupsLoop | test/cpu_fusion.cpp:1864-1877 | The merge loop leaves the state MergeArgGroups3 describes |
| GraphPartition3.AbsorbGroup | test/cpu_fusion.cpp:1869-1875 | Appends src's group to dst's, re-heads the members to dst, and keeps the key src |
| GraphPartition3.PruneSmall | test/cpu_fusion.cpp:1885-1896 | The erase loop leaves Prune(graphs, min) |
| GraphPartition3.AbsorbKeepsSource | test/cpu_fusion.cpp:1864-1877 | An absorbed group stays in the map unchanged, so each of its members is listed in two groups |
| GraphPartition3.Run3HeadedAreMembers | test/cpu_fusion.cpp:1817-1883 | Every grouped node still lies in the group its head keys |
| GraphPartition3.Step3StartsGroup | test/cpu_fusion.cpp:1845-1850 | A fusable node with no grouped argument starts the group [n] |
| GraphPartition3.Step3JoinsArgGroup | test/cpu_fusion.cpp:1851-1881 | With one grouped argument a, n joins the group of a's head and nothing else changes |
| PartitionScenarios.CreationOrderIsTopological | test/cpu_fusion.cpp:2030-2047 | The creation order of the test graph is a topological order |
| PartitionScenarios.GraphPartition4OneGroup | test/cpu_fusion.cpp:2027-2059 | With minimum 3 the collector reports one group of all eight fusable nodes, whichever head is smaller |
| PartitionScenarios.GraphPartition5TwoGroups | test/cpu_fusion.cpp:2061-2085 | Without mul_cd the collector reports exactly two groups, {add_ab, add_abs, abs_neg, sub_c_neg} and {d_abs, add_d, neg_d} |
| PartitionScenarios.DiamondNoSelfMerge | test/cpu_fusion.cpp:2027-2085 | On the graphs of graph_partition4 and graph_partition5 no node triggers a self-merge, whatever the addresses |
| PartitionScenarios.GraphPartition4AsWritten | test/cpu_fusion.cpp:2027-2059 | The loop as written runs without throwing and reports the one group of all eight fusable nodes |
| PartitionScenarios.GraphPartition5AsWritten | test/cpu_fusion.cpp:2061-2085 | The loop as written runs without throwing and reports the same two groups as the guarded loop |
| PartitionScenarios.GraphPartition3Overlaps | test/cpu_fusion.cpp:1794-1896 | On the same graph, graph_partition3's loop reports two groups that share the members of the merged-away group |
| PartitionScenarios.StepMergesTwoArgs | test/cpu_fusion.cpp:1927-1940 | A node whose two arguments are in different groups merges the group with the larger head into the other and joins it |
| CollectorAsWritten.MergeAsWrittenAgrees | test/cpu_fusion.cpp:1970-1985 | On two distinct groups, merge as written does what MergeGroups states |
| CollectorAsWritten.SelfMergeDropsGroup | test/cpu_fusion.cpp:1970-1985 | merge(h, h) erases the group keyed h |
| CollectorAsWritten.MergeArgGroupsHeads | test/cpu_fusion.cpp:1929-1935 | After the guarded merge loop a node has head smallest_head iff its starting head is smallest_head or the head of some grouped argument |
| CollectorAsWritten.MergeArgGroupsAsWrittenExact | test/cpu_fusion.cpp:1929-1935 | If no non-chosen grouped argument starts in the smallest head's group or shares its starting group with an earlier grouped argument, the loop as written ends where the guarded loop ends; otherwise it throws or has erased the smallest head's group |
| CollectorAsWritten.StepAsWrittenExact | test/cpu_fusion.cpp:1906-1945 | One node as written gives the guarded step when that condition holds, and out_of_range otherwise |
| CollectorAsWritten.RunAsWrittenExact | test/cpu_fusion.cpp:1904-1947 | The walk as written gives the guarded walk's groups iff no node meets a self-merge, and out_of_range otherwise |
| CollectorAsWritten.OneGroupedArgNoSelfMerge | test/cpu_fusion.cpp:1929-1935 | A node with a single grouped argument never triggers a self-merge |
| CollectorAsWritten.TwoGroupsNoSelfMerge | test/cpu_fusion.cpp:1929-1935 | A node whose two arguments sit in different groups never triggers a self-merge |
| CollectorAsWritten.SharedHeadThrows | test/cpu_fusion.cpp:1927-1939 | On x = -a; y = abs(x); w = x + y, the unguarded loop calls merge(x, x) and then throws out_of_range |
| CollectorAsWritten.SharedHeadGuarded | test/cpu_fusion.cpp:1927-1939 | On the same graph, the guarded loop puts x, y and w in one group |
| SigmoidMultiply.IdentifyNodeFunction | src/ngraph/runtime/cpu/op/sigmoid_mul.cpp:28-38 | A refused node yields the error naming that node |
| SigmoidMultiply.IdentifyInvertsKind | src/ngraph/runtime/cpu/op/sigmoid_mul.cpp:28-38 | Tanh maps to Tanh and Sigmoid to Logistic, both directions; any other kind is an error |
| SigmoidMultiply.ArgumentZero | src/ngraph/runtime/cpu/op/sigmoid_mul.cpp:41 | get_argument(0) succeeds iff the node has an argument, and is then its first argument |
| SigmoidMultiply.ConstructBuilds | src/ngraph/runtime/cpu/op/sigmoid_mul.cpp:40-56 | The constructor succeeds iff both inputs have an argument, agree on element type and shape, and are Tanh or Sigmoid. The node's arguments are argument 0 of input_1 then of input_2; input_type records their classes in order; there is one output typed like input_1 |
| SigmoidMultiply.ConstructErrorOrder | src/ngraph/runtime/cpu/op/sigmoid_mul.cpp:41-53 | Errors come in source order: a missing argument, then element type, then shape, then an unsupported input_1, then an unsupported input_2 |
| SigmoidMultiply.NewSigmoidMultiply | src/ngraph/runtime/cpu/op/sigmoid_mul.cpp:40-56 | The new object is in the state Construct describes, or the constructor throws Construct's error |
| SigmoidMultiply.SigmoidMultiplyNode.constructor | src/ngraph/runtime/cpu/op/sigmoid_mul.cpp:41 | The base class stores the arguments; there is no output yet and input_type has two slots |
| SigmoidMultiply.SigmoidMultiplyNode.AddOutput | src/ngraph/runtime/cpu/op/sigmoid_mul.cpp:55 | One output is appended and the arguments are unchanged |
| SigmoidMultiply.CopyAsWritten | src/ngraph/runtime/cpu/op/sigmoid_mul.cpp:58-66 | Fails unless given exactly two arguments; on success the copy's arguments are the arguments of the new arguments |
| SigmoidMultiply.CopyAsWrittenNeverRoundTrips | src/ngraph/runtime/cpu/op/sigmoid_mul.cpp:58-66 | Copying a node as written with its own arguments never gives the node back |
| SigmoidMultiply.CopyAsWrittenThrows | src/ngraph/runtime/cpu/op/sigmoid_mul.cpp:58-66 | For tanh(p) * sigmoid(q), copying with [p, q] as written throws |
| SigmoidMultiply.Copy | src/ngraph/runtime/cpu/op/sigmoid_mul.cpp:58-66 | Fails unless given exactly two arguments; the copy takes the new arguments, keeps the function types, and has one output |
| SigmoidMultiply.ConstructWithTypes | src/ngraph/runtime/cpu/op/sigmoid_mul.cpp:43-55 | Succeeds iff both operands have the same element type and shape; the element-type error comes first |
| SigmoidMultiply.CopyRoundTrips | src/ngraph/runtime/cpu/op/sigmoid_mul.cpp:58-66 | The corrected copy with a node's own arguments gives the node back |
| SigmoidMultiply.SigmoidMultiplyNode.CopyWithNewArgs | src/ngraph/runtime/cpu/op/sigmoid_mul.cpp:58-66 | Returns a fresh node in the state Copy describes, or Copy's error |
| SigmoidMultiply.AdjointDeltas | src/ngraph/runtime/cpu/op/sigmoid_mul.cpp:70-83 | Two contributions from one backprop node over both arguments and the delta: argument i receives output i |
| SigmoidMultiply.SigmoidMultiplyNode.GenerateAdjoints | src/ngraph/runtime/cpu/op/sigmoid_mul.cpp:68-84 | With no delta it throws and adds nothing; otherwise it appends exactly AdjointDeltas(arguments, deltas[0]) to the adjoints |
| SigmoidMultiply.Adjoints.AddDelta | src/ngraph/runtime/cpu/op/sigmoid_mul.cpp:82-83 | Each add_delta call is recorded after the earlier ones |

## Left out

- The traversal order: `Function::get_ordered_ops` is not part of this model. The walk takes any valid order (arena nodes, each listed once). The order facts need a topological order, and the test graphs use creation order, which is proved topological.
- `unordered_map` iteration order: the pruning loops visit keys in an arbitrary order, and the result does not depend on it.
- Logging (`NGRAPH_DEBUG`, `log_group`, `log_group2`) and the `VisualizeTree` pass: output only.
- `graph_partition` and `graph_partition2` (test/cpu_fusion.cpp:1582-1790): commented-out code.
- The numeric tests of test/cpu_fusion.cpp and the GPU emitter: they need execution and floating point.
- The pattern matcher, the rewrite passes and the internals of `autodiff::Adjoints`. `Adjoints` is seen only through its `add_delta` calls, kept as a log; how deltas accumulate is not modelled.
- `SigmoidMultiplyBackprop` (src/ngraph/runtime/cpu/op/sigmoid_mul.cpp:86-109): its constructor uses an undeclared `arg`, and its copy calls a three-parameter constructor with two arguments. `generate_adjoints` only builds the node, so it is a datatype holding its three inputs.
- `RequiresTensorViewArgs` checks, and `get_argument`'s check for multi-output nodes: not part of this model. `get_argument(0)` on a node with no argument is the out_of_range error.
- GraphPartition3.Absorb: when a grouped argument is already in the smallest head's group, the C++ inserts a vector's own range into itself, which is undefined behaviour. The model appends the group to itself once (`v + v`).
- LeaderMap.GetLeader: a chain of heads that cycles never returns in C++. The model requires a step bound (`Settles`) under which the walk ends.
- CollectorAsWritten.MergeAsWritten: for merge(h, h), the self-insert is the same undefined behaviour. The model appends; either way the group is then erased, and the out_of_range that follows does not depend on the appended contents.
- Sigmoid: its header is not part of this model. A Sigmoid node is taken not to be elementwise arithmetic, so it is never fusable.
- Node identity: nodes are arena indices, and `shared_ptr` ordering is the `addr` parameter. Results that depend on which head is smaller are stated for both outcomes.

## Findings

| source | as written | input that shows it | evidently intended | confidence | as-written member | corrected member |
|---|---|---|---|---|---|---|
| test/cpu_fusion.cpp:1929-1939 | The merge loop calls `merge(m_heads.at(awh), smallest_head)` for every grouped argument other than the chosen one, even one already in the smallest head's group. `merge(h, h)` (lines 1970-1985) erases group h, and the next `m_graphs.at(smallest_head)` throws out_of_range. | `x = -a; y = abs(x); w = x + y`: both arguments of w are in x's group, and y is not the chosen argument | Skip arguments whose head is already smallest_head, so x, y and w form one group. The two loops differ exactly when a non-chosen grouped argument starts in the smallest head's group or shares its group with an earlier grouped argument; the graph_partition4 and graph_partition5 graphs never do, so those tests pass as written | not executed | CollectorAsWritten.SharedHeadThrows and CollectorAsWritten.RunAsWrittenExact | CollectorAsWritten.SharedHeadGuarded, via Partition.MergeArgGroups and LoopKernel.LoopKernelCollector.MergeArgGroupsOf |
| test/cpu_fusion.cpp:1864-1877 | graph_partition3's merge appends and re-heads the absorbed group but never erases it. The stale group is still reported after pruning. | The graph_partition4 graph (a diamond through GetOutputElement, joined by mul_cd) | Erase the merged group, as `LoopKernelCollector::merge` does, so the reported groups are disjoint | not executed | PartitionScenarios.GraphPartition3Overlaps | Partition.PartitionSound and PartitionScenarios.GraphPartition4OneGroup |
| src/ngraph/runtime/cpu/op/sigmoid_mul.cpp:58-66 | `copy_with_new_args` passes the new arguments (the operands) to the constructor, which expects activations and takes their argument 0 in turn | tanh(p) * sigmoid(q) copied with [p, q]: the parameters have no argument, so the copy throws | Build a node over the new arguments that keeps input_type | not executed | SigmoidMultiply.CopyAsWrittenThrows | SigmoidMultiply.CopyRoundTrips, via SigmoidMultiply.Copy and SigmoidMultiply.SigmoidMultiplyNode.CopyWithNewArgs |
