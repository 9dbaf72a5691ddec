/**
  LoopKernelCollector of test/cpu_fusion.cpp:1899-2025 as a class whose fields are the
  two maps and the per-node scratch state of the C++ object. Each method is proved
  against the functions of module Partition, so everything proved there about Run,
  Prune and Partition holds of what get_graphs returns.
*/
module LoopKernel {
  import opened Wrappers
  import opened Graph
  import opened Partition

  class LoopKernelCollector {
    /** m_heads: the head of the group of every grouped node. */
    var heads: map<NodeId, NodeId>
    /** m_graphs: the members of every group, keyed by its head. */
    var graphs: map<NodeId, seq<NodeId>>
    /** m_arg_with_smallest_head (None plays nullptr). */
    var argWithSmallestHead: Option<NodeId>
    /** m_args_with_heads. */
    var argsWithHeads: seq<NodeId>

    function State(): Groups
      reads this
    {
      Groups(heads, graphs)
    }

    function GetGraphs(): map<NodeId, seq<NodeId>>
      reads this
    {
      graphs
    }

    /**
      Walks the nodes in `order` (what get_ordered_ops returns), grouping the fusable ones,
      then drops the groups smaller than `minNodesToFuse`. The reported groups are exactly
      FusedGroups(g, addr, order, minNodesToFuse); the merge loop skips an argument that is
      already in the group of the smallest head (see the Findings in the README).
    */
    constructor(g: Graph, order: seq<NodeId>, addr: NodeId -> nat, minNodesToFuse: nat)
      requires ValidOrder(g, order)
      ensures GetGraphs() == FusedGroups(g, addr, order, minNodesToFuse)
      ensures heads.Keys == FusableIn(g, order)
    {
      heads := map[];
      graphs := map[];
      argWithSmallestHead := None;
      argsWithHeads := [];
      new;
      var i := 0;
      while i < |order|
        invariant 0 <= i <= |order|
        invariant State() == Run(g, addr, order[..i])
        invariant argWithSmallestHead == None && argsWithHeads == []
      {
        assert order[..i + 1][..i] == order[..i];
        ValidOrderLast(g, order[..i + 1]);
        Visit(g, addr, order[..i], order[i]);
        i := i + 1;
      }
      assert order[..i] == order;
      PruneGraphs(minNodesToFuse);
    }

    /**
      The body of the constructor's loop for one node `n` (test/cpu_fusion.cpp:1906-1945):
      a fusable node with no grouped argument starts the group [n]; otherwise the groups of
      its other grouped arguments are merged into the group of the smallest head, n is
      appended to that group, and the scratch state is cleared.
    */
    method Visit(g: Graph, addr: NodeId -> nat, ghost done: seq<NodeId>, n: NodeId)
      requires ValidOrder(g, done) && State() == Run(g, addr, done) && n < |g|
      requires argWithSmallestHead == None && argsWithHeads == []
      modifies this
      ensures State() == Step(g, addr, old(State()), n)
      ensures argWithSmallestHead == None && argsWithHeads == []
    {
      if IsFusable(g, n) {
        CollectFusableArgs(g, addr, n);
        if argWithSmallestHead.None? {
          NoGroupedArgs(heads, g[n].args);
          heads := Insert(heads, n, n);
          graphs := Insert(graphs, n, [n]);
        } else {
          JoinSmallestGroup(g, addr, done, n);
        }
      }
    }

    /**
      The else branch of the constructor's loop (test/cpu_fusion.cpp:1918-1944): merges the
      groups of the grouped arguments into the group of the smallest head, appends `n` to
      it, and clears the scratch state.
    */
    method JoinSmallestGroup(g: Graph, addr: NodeId -> nat, ghost done: seq<NodeId>, n: NodeId)
      requires ValidOrder(g, done) && State() == Run(g, addr, done)
      requires argWithSmallestHead.Some? && argWithSmallestHead.value in heads
      requires forall k :: 0 <= k < |argsWithHeads| ==> argsWithHeads[k] in heads
      modifies this
      ensures var chosen := old(argWithSmallestHead).value;
        State() == JoinGroup(MergeArgGroups(old(State()), old(argsWithHeads), chosen, old(heads)[chosen]), n, old(heads)[chosen])
      ensures argWithSmallestHead == None && argsWithHeads == []
    {
      var chosen := argWithSmallestHead.value;
      var smallest := heads[chosen];
      MergeArgGroupsOf(chosen, smallest, g, addr, done);
      graphs := graphs[smallest := graphs[smallest] + [n]];
      heads := Insert(heads, n, smallest);
      argWithSmallestHead := None;
      argsWithHeads := [];
    }

    /**
      The merge loop of test/cpu_fusion.cpp:1929-1935: for each grouped argument other than
      the chosen one, merges its group into the group of `smallest`, unless it is already
      there.
    */
    method MergeArgGroupsOf(chosen: NodeId, smallest: NodeId, ghost g: Graph, ghost addr: NodeId -> nat, ghost done: seq<NodeId>)
      requires ValidOrder(g, done) && State() == Run(g, addr, done) && smallest in graphs
      requires forall k :: 0 <= k < |argsWithHeads| ==> argsWithHeads[k] in heads
      modifies this
      ensures argWithSmallestHead == old(argWithSmallestHead) && argsWithHeads == old(argsWithHeads)
      ensures State() == MergeArgGroups(old(State()), argsWithHeads, chosen, smallest)
    {
      ghost var start := State();
      var k := 0;
      while k < |argsWithHeads|
        invariant 0 <= k <= |argsWithHeads|
        invariant argWithSmallestHead == old(argWithSmallestHead) && argsWithHeads == old(argsWithHeads)
        invariant State() == MergeArgGroups(start, argsWithHeads[..k], chosen, smallest)
      {
        MergeArgGroupsNext(start, argsWithHeads, chosen, smallest, k);
        RunMergeReady(g, addr, done, argsWithHeads, chosen, smallest, k);
        var awh := argsWithHeads[k];
        if awh != chosen && heads[awh] != smallest {
          Merge(heads[awh], smallest);
        }
        k := k + 1;
      }
      assert argsWithHeads[..k] == argsWithHeads;
    }

    /**
      collect_fusable_args(n): scanning the arguments of `n` left to right, records the
      grouped ones and the one whose head is smallest (earliest on ties).
    */
    method CollectFusableArgs(g: Graph, addr: NodeId -> nat, n: NodeId)
      requires n < |g| && argWithSmallestHead == None && argsWithHeads == []
      modifies this
      ensures heads == old(heads) && graphs == old(graphs)
      ensures argWithSmallestHead == SmallestHeadArg(heads, addr, g[n].args)
      ensures argsWithHeads == ArgsWithHeads(heads, g[n].args)
    {
      var args := g[n].args;
      var k := 0;
      while k < |args|
        invariant 0 <= k <= |args|
        invariant heads == old(heads) && graphs == old(graphs)
        invariant argWithSmallestHead == SmallestHeadArg(heads, addr, args[..k])
        invariant argsWithHeads == ArgsWithHeads(heads, args[..k])
      {
        ScanNext(heads, addr, args, k);
        var arg := args[k];
        if arg in heads {
          if argWithSmallestHead.None? {
            argWithSmallestHead := Some(arg);
          } else if addr(heads[arg]) < addr(heads[argWithSmallestHead.value]) {
            argWithSmallestHead := Some(arg);
          }
          argsWithHeads := argsWithHeads + [arg];
        }
        k := k + 1;
      }
      assert args[..k] == args;
    }

    /**
      merge(src, dst): appends src's members to dst's group, re-heads each of them to dst,
      and erases the group keyed src.
    */
    method Merge(src: NodeId, dst: NodeId)
      requires MergeReady(State(), src) && dst in graphs && src != dst
      modifies this
      ensures State() == MergeGroups(old(State()), src, dst)
      ensures argWithSmallestHead == old(argWithSmallestHead) && argsWithHeads == old(argsWithHeads)
    {
      var srcGraph := graphs[src];
      graphs := graphs[dst := graphs[dst] + srcGraph];
      var k := 0;
      while k < |srcGraph|
        invariant 0 <= k <= |srcGraph|
        invariant graphs == old(graphs)[dst := old(graphs)[dst] + srcGraph]
        invariant argWithSmallestHead == old(argWithSmallestHead) && argsWithHeads == old(argsWithHeads)
        invariant heads.Keys == old(heads).Keys
        invariant forall x :: x in heads ==> heads[x] == if x in srcGraph[..k] then dst else old(heads)[x]
      {
        assert srcGraph[k] in heads;
        assert forall x :: x in srcGraph[..k + 1] <==> x in srcGraph[..k] || x == srcGraph[k];
        heads := heads[srcGraph[k] := dst];
        k := k + 1;
      }
      assert srcGraph[..k] == srcGraph;
      graphs := graphs - {src};
      assert heads == MergeGroups(old(State()), src, dst).heads;
    }

    /** prune_graphs(min): erases, in whatever order the map is walked, every group smaller than min. */
    method PruneGraphs(minNodesToFuse: nat)
      modifies this
      ensures graphs == Prune(old(graphs), minNodesToFuse)
      ensures heads == old(heads)
      ensures argWithSmallestHead == old(argWithSmallestHead) && argsWithHeads == old(argsWithHeads)
    {
      var pending := graphs.Keys;
      while pending != {}
        invariant pending <= old(graphs).Keys
        invariant heads == old(heads)
        invariant argWithSmallestHead == old(argWithSmallestHead) && argsWithHeads == old(argsWithHeads)
        invariant forall h :: h in graphs <==> h in old(graphs) && (h in pending || |old(graphs)[h]| >= minNodesToFuse)
        invariant forall h :: h in graphs ==> graphs[h] == old(graphs)[h]
        decreases pending
      {
        var h :| h in pending;
        if |graphs[h]| < minNodesToFuse {
          graphs := graphs - {h};
        }
        pending := pending - {h};
      }
      assert graphs == Prune(old(graphs), minNodesToFuse);
    }
  }
}
