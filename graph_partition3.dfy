/**
  The partitioning loop of the graph_partition3 test (test/cpu_fusion.cpp:1817-1896), an
  earlier copy of LoopKernelCollector written inline over two local maps. It differs from
  the class in its merge: the members of an argument's group are appended to the group of
  the smallest head and re-headed, but the group they came from is not erased. Nor does it
  skip an argument already in the group of the smallest head; on the value model that
  appends the group to itself.
*/
module GraphPartition3 {
  import opened Wrappers
  import opened Graph
  import opened Partition

  /** static const size_t MIN_NODES_TO_FUSE = 3 (test/cpu_fusion.cpp:1885). */
  const MIN_NODES_TO_FUSE: nat := 3

  /** Every `.at` of the loop finds its key: each head keys a group and each listed member has a head. */
  ghost predicate Reachable(st: Groups) {
    && HeadsAreKeys(st)
    && (forall h, i :: h in st.graphs && 0 <= i < |st.graphs[h]| ==> st.graphs[h][i] in st.heads)
  }

  /**
    One turn of the merge loop (test/cpu_fusion.cpp:1864-1877): the members of the group
    keyed `src` are appended to the group keyed `dst` and re-headed to `dst`; the group
    keyed `src` stays in the map.
  */
  function Absorb(st: Groups, src: NodeId, dst: NodeId): (r: Groups)
    requires src in st.graphs && dst in st.graphs
    ensures r.heads.Keys == st.heads.Keys && r.graphs.Keys == st.graphs.Keys
  {
    var members := st.graphs[src];
    Groups(map x | x in st.heads :: if x in members then dst else st.heads[x],
           st.graphs[dst := st.graphs[dst] + members])
  }

  /** The merge re-heads only nodes that already have a head and lists only such nodes. */
  lemma {:induction false} AbsorbKeepsReachable(st: Groups, src: NodeId, dst: NodeId)
    requires Reachable(st) && src in st.graphs && dst in st.graphs
    ensures Reachable(Absorb(st, src, dst))
  {
    AbsorbKeepsHeadsAreKeys(st, src, dst);
    AbsorbKeepsMembersHaveHeads(st, src, dst);
  }

  lemma {:induction false} AbsorbKeepsHeadsAreKeys(st: Groups, src: NodeId, dst: NodeId)
    requires HeadsAreKeys(st) && src in st.graphs && dst in st.graphs
    ensures HeadsAreKeys(Absorb(st, src, dst))
  {
  }

  lemma {:induction false} AbsorbKeepsMembersHaveHeads(st: Groups, src: NodeId, dst: NodeId)
    requires src in st.graphs && dst in st.graphs
    requires forall h, i :: h in st.graphs && 0 <= i < |st.graphs[h]| ==> st.graphs[h][i] in st.heads
    ensures var r := Absorb(st, src, dst);
      forall h, i :: h in r.graphs && 0 <= i < |r.graphs[h]| ==> r.graphs[h][i] in r.heads
  {
    var r := Absorb(st, src, dst);
    var A, B := st.graphs[dst], st.graphs[src];
    forall i | 0 <= i < |A + B|
      ensures (A + B)[i] in st.heads
    {
      if i < |A| {
        assert (A + B)[i] == A[i];
      } else {
        assert (A + B)[i] == B[i - |A|];
      }
    }
  }

  /** An absorbed group is still reported, so its members are listed twice. */
  lemma {:induction false} AbsorbKeepsSource(st: Groups, src: NodeId, dst: NodeId)
    requires src in st.graphs && dst in st.graphs && src != dst
    ensures var r := Absorb(st, src, dst);
      src in r.graphs && r.graphs[src] == st.graphs[src] &&
      forall i :: 0 <= i < |st.graphs[src]| ==> st.graphs[src][i] in r.graphs[src] && st.graphs[src][i] in r.graphs[dst]
  {
    var r := Absorb(st, src, dst);
    var A, B := st.graphs[dst], st.graphs[src];
    forall i | 0 <= i < |B|
      ensures B[i] in r.graphs[dst]
    {
      assert (A + B)[|A| + i] == B[i];
    }
  }

  /** The merge loop of graph_partition3 over the grouped arguments. */
  function MergeArgGroups3(st: Groups, awhs: seq<NodeId>, chosen: NodeId, smallest: NodeId): (r: Groups)
    requires Reachable(st) && smallest in st.graphs
    requires forall k :: 0 <= k < |awhs| ==> awhs[k] in st.heads
    ensures Reachable(r) && r.heads.Keys == st.heads.Keys && r.graphs.Keys == st.graphs.Keys
    decreases |awhs|
  {
    if awhs == [] then st
    else
      var prev := MergeArgGroups3(st, awhs[..|awhs| - 1], chosen, smallest);
      var awh := awhs[|awhs| - 1];
      if awh != chosen then
        AbsorbKeepsReachable(prev, prev.heads[awh], smallest);
        Absorb(prev, prev.heads[awh], smallest)
      else prev
  }

  /** One more turn of the merge loop. */
  lemma {:induction false} MergeArgGroups3Next(st: Groups, awhs: seq<NodeId>, chosen: NodeId, smallest: NodeId, k: nat)
    requires Reachable(st) && smallest in st.graphs
    requires forall i :: 0 <= i < |awhs| ==> awhs[i] in st.heads
    requires k < |awhs|
    ensures var prev := MergeArgGroups3(st, awhs[..k], chosen, smallest);
      && awhs[k] in prev.heads && prev.heads[awhs[k]] in prev.graphs && smallest in prev.graphs
      && MergeArgGroups3(st, awhs[..k + 1], chosen, smallest) ==
        if awhs[k] != chosen then Absorb(prev, prev.heads[awhs[k]], smallest) else prev
  {
    assert awhs[..k + 1][..k] == awhs[..k];
  }

  /** One node of the loop: start a group, or merge the argument groups and join (1821-1881). */
  function Step3(g: Graph, addr: NodeId -> nat, st: Groups, n: NodeId): (r: Groups)
    requires n < |g| && Reachable(st)
    ensures Reachable(r)
    ensures r.heads.Keys == st.heads.Keys + (if IsFusable(g, n) then {n} else {})
    ensures st.graphs.Keys <= r.graphs.Keys <= st.graphs.Keys + (if IsFusable(g, n) then {n} else {})
  {
    if !IsFusable(g, n) then st
    else
      var chosen := SmallestHeadArg(st.heads, addr, g[n].args);
      if chosen.None? then StartGroup(st, n)
      else
        var smallest := st.heads[chosen.value];
        JoinGroup(MergeArgGroups3(st, ArgsWithHeads(st.heads, g[n].args), chosen.value, smallest), n, smallest)
  }

  /** As in the class: a fusable node with no grouped argument starts the group [n]. */
  lemma {:induction false} Step3StartsGroup(g: Graph, addr: NodeId -> nat, st: Groups, n: NodeId)
    requires n < |g| && Reachable(st) && IsFusable(g, n) && n !in st.heads && n !in st.graphs
    requires forall k :: 0 <= k < |g[n].args| ==> g[n].args[k] !in st.heads
    ensures Step3(g, addr, st, n) == Groups(st.heads[n := n], st.graphs[n := [n]])
  {
  }

  /** As in the class: with one grouped argument `a`, nothing is merged and n joins a's group. */
  lemma {:induction false} Step3JoinsArgGroup(g: Graph, addr: NodeId -> nat, st: Groups, n: NodeId, a: NodeId)
    requires n < |g| && Reachable(st) && IsFusable(g, n) && a in st.heads && a in g[n].args
    requires forall k :: 0 <= k < |g[n].args| && g[n].args[k] in st.heads ==> g[n].args[k] == a
    ensures Step3(g, addr, st, n) == JoinGroup(st, n, st.heads[a])
  {
    var args := g[n].args;
    var i :| 0 <= i < |args| && args[i] == a;
    var chosen := SmallestHeadArg(st.heads, addr, args);
    assert chosen.Some?;
    var j :| 0 <= j < |args| && args[j] == chosen.value;
    var awhs := ArgsWithHeads(st.heads, args);
    ArgsWithHeadsExact(st.heads, args);
    forall k | 0 <= k < |awhs|
      ensures awhs[k] == a
    {
      assert awhs[k] in awhs;
      var j' :| 0 <= j' < |args| && args[j'] == awhs[k];
    }
    MergeArgGroups3OnlyChosen(st, awhs, a, st.heads[a]);
  }

  lemma {:induction false} MergeArgGroups3OnlyChosen(st: Groups, awhs: seq<NodeId>, chosen: NodeId, smallest: NodeId)
    requires Reachable(st) && smallest in st.graphs && chosen in st.heads
    requires forall k :: 0 <= k < |awhs| ==> awhs[k] == chosen
    ensures MergeArgGroups3(st, awhs, chosen, smallest) == st
    decreases |awhs|
  {
    if awhs != [] {
      MergeArgGroups3OnlyChosen(st, awhs[..|awhs| - 1], chosen, smallest);
    }
  }

  /** The two maps after graph_partition3 has walked `order`, before pruning. */
  function Run3(g: Graph, addr: NodeId -> nat, order: seq<NodeId>): (r: Groups)
    requires ValidOrder(g, order)
    ensures Reachable(r) && r.heads.Keys == FusableIn(g, order) && r.graphs.Keys <= FusableIn(g, order)
    decreases |order|
  {
    if order == [] then Empty
    else
      var init := order[..|order| - 1];
      var n := order[|order| - 1];
      ValidOrderLast(g, order);
      assert FusableIn(g, order) == FusableIn(g, init) + (if IsFusable(g, n) then {n} else {});
      Step3(g, addr, Run3(g, addr, init), n)
  }

  /**
    Even without the erase, every grouped node lies in the group its head keys: the loop
    loses no node, it only leaves stale copies behind.
  */
  lemma {:induction false} Run3HeadedAreMembers(g: Graph, addr: NodeId -> nat, order: seq<NodeId>)
    requires ValidOrder(g, order)
    ensures HeadedAreMembers(Run3(g, addr, order))
    decreases |order|
  {
    if order != [] {
      var init := order[..|order| - 1];
      var n := order[|order| - 1];
      ValidOrderLast(g, order);
      Run3HeadedAreMembers(g, addr, init);
      Step3KeepsHeadedAreMembers(g, addr, Run3(g, addr, init), n);
    }
  }

  lemma {:induction false} Step3KeepsHeadedAreMembers(g: Graph, addr: NodeId -> nat, st: Groups, n: NodeId)
    requires n < |g| && Reachable(st) && HeadedAreMembers(st) && n !in st.heads && n !in st.graphs
    ensures HeadedAreMembers(Step3(g, addr, st, n))
  {
    if IsFusable(g, n) {
      var chosen := SmallestHeadArg(st.heads, addr, g[n].args);
      if chosen.Some? {
        var smallest := st.heads[chosen.value];
        var awhs := ArgsWithHeads(st.heads, g[n].args);
        MergeArgGroups3KeepsHeadedAreMembers(st, awhs, chosen.value, smallest);
        var m := MergeArgGroups3(st, awhs, chosen.value, smallest);
        var r := JoinGroup(m, n, smallest);
        forall x | x in r.heads
          ensures r.heads[x] in r.graphs && x in r.graphs[r.heads[x]]
        {
          if x != n {
            var k :| 0 <= k < |m.graphs[m.heads[x]]| && m.graphs[m.heads[x]][k] == x;
            assert r.graphs[m.heads[x]][k] == x;
          } else {
            assert r.graphs[smallest][|m.graphs[smallest]|] == n;
          }
        }
      }
    }
  }

  lemma {:induction false} MergeArgGroups3KeepsHeadedAreMembers(st: Groups, awhs: seq<NodeId>, chosen: NodeId, smallest: NodeId)
    requires Reachable(st) && HeadedAreMembers(st) && smallest in st.graphs
    requires forall k :: 0 <= k < |awhs| ==> awhs[k] in st.heads
    ensures HeadedAreMembers(MergeArgGroups3(st, awhs, chosen, smallest))
    decreases |awhs|
  {
    if awhs != [] {
      var prev := MergeArgGroups3(st, awhs[..|awhs| - 1], chosen, smallest);
      MergeArgGroups3KeepsHeadedAreMembers(st, awhs[..|awhs| - 1], chosen, smallest);
      var awh := awhs[|awhs| - 1];
      if awh != chosen {
        AbsorbKeepsHeadedAreMembers(prev, prev.heads[awh], smallest);
      }
    }
  }

  lemma {:induction false} AbsorbKeepsHeadedAreMembers(st: Groups, src: NodeId, dst: NodeId)
    requires HeadedAreMembers(st) && src in st.graphs && dst in st.graphs
    ensures HeadedAreMembers(Absorb(st, src, dst))
  {
    var r := Absorb(st, src, dst);
    var A, B := st.graphs[dst], st.graphs[src];
    forall x | x in r.heads && x !in B
      ensures x in r.graphs[r.heads[x]]
    {
      var h := st.heads[x];
      var k :| 0 <= k < |st.graphs[h]| && st.graphs[h][k] == x;
      if h == dst {
        assert (A + B)[k] == x;
      }
    }
  }

  // ---------------------------------------------------------------------------
  // The loop as the test writes it
  // ---------------------------------------------------------------------------

  /**
    graph_partition3's walk over the ordered ops followed by its pruning loop; the groups
    left in `graphs` are the groups of Run3 with at least MIN_NODES_TO_FUSE members.
  */
  method GraphPartition3(g: Graph, order: seq<NodeId>, addr: NodeId -> nat) returns (graphs: map<NodeId, seq<NodeId>>)
    requires ValidOrder(g, order)
    ensures graphs == Prune(Run3(g, addr, order).graphs, MIN_NODES_TO_FUSE)
  {
    var heads: map<NodeId, NodeId> := map[];
    graphs := map[];
    var i := 0;
    while i < |order|
      invariant 0 <= i <= |order|
      invariant Groups(heads, graphs) == Run3(g, addr, order[..i])
    {
      assert order[..i + 1][..i] == order[..i];
      ValidOrderLast(g, order[..i + 1]);
      heads, graphs := Visit3(g, addr, heads, graphs, order[i]);
      i := i + 1;
    }
    assert order[..i] == order;
    graphs := PruneSmall(graphs, MIN_NODES_TO_FUSE);
  }

  /** The body of the walk for one node (test/cpu_fusion.cpp:1821-1881). */
  method Visit3(g: Graph, addr: NodeId -> nat, heads: map<NodeId, NodeId>, graphs: map<NodeId, seq<NodeId>>, n: NodeId)
    returns (heads': map<NodeId, NodeId>, graphs': map<NodeId, seq<NodeId>>)
    requires n < |g| && Reachable(Groups(heads, graphs))
    ensures Groups(heads', graphs') == Step3(g, addr, Groups(heads, graphs), n)
  {
    heads', graphs' := heads, graphs;
    if IsFusable(g, n) {
      var chosen, awhs := ScanArgs(heads, addr, g[n].args);
      if chosen.None? {
        heads' := Insert(heads', n, n);
        graphs' := Insert(graphs', n, [n]);
      } else {
        heads', graphs' := JoinArgGroups(heads, graphs, n, awhs, chosen.value);
      }
    }
  }

  /**
    A node with grouped arguments: the other argument groups are absorbed into the group of
    the chosen argument's head, then the node is appended to it (test/cpu_fusion.cpp:1863-1881).
  */
  method JoinArgGroups(heads: map<NodeId, NodeId>, graphs: map<NodeId, seq<NodeId>>, n: NodeId, awhs: seq<NodeId>, chosen: NodeId)
    returns (heads': map<NodeId, NodeId>, graphs': map<NodeId, seq<NodeId>>)
    requires Reachable(Groups(heads, graphs)) && chosen in heads
    requires forall k :: 0 <= k < |awhs| ==> awhs[k] in heads
    ensures Groups(heads', graphs') ==
      JoinGroup(MergeArgGroups3(Groups(heads, graphs), awhs, chosen, heads[chosen]), n, heads[chosen])
  {
    var smallest := heads[chosen];
    heads', graphs' := MergeArgGroupsLoop(heads, graphs, awhs, chosen, smallest);
    graphs' := graphs'[smallest := graphs'[smallest] + [n]];
    heads' := Insert(heads', n, smallest);
  }

  /** The scan of n's arguments (test/cpu_fusion.cpp:1825-1843). */
  method ScanArgs(heads: map<NodeId, NodeId>, addr: NodeId -> nat, args: seq<NodeId>) returns (chosen: Option<NodeId>, awhs: seq<NodeId>)
    ensures chosen == SmallestHeadArg(heads, addr, args)
    ensures awhs == ArgsWithHeads(heads, args)
  {
    chosen := None;
    awhs := [];
    var k := 0;
    while k < |args|
      invariant 0 <= k <= |args|
      invariant chosen == SmallestHeadArg(heads, addr, args[..k])
      invariant awhs == ArgsWithHeads(heads, args[..k])
    {
      ScanNext(heads, addr, args, k);
      var arg := args[k];
      if arg in heads {
        if chosen.None? {
          chosen := Some(arg);
        } else {
          chosen := if addr(heads[arg]) < addr(heads[chosen.value]) then Some(arg) else chosen;
        }
        awhs := awhs + [arg];
      }
      k := k + 1;
    }
    assert args[..k] == args;
  }

  /** The merge loop over the grouped arguments (test/cpu_fusion.cpp:1864-1877). */
  method MergeArgGroupsLoop(heads: map<NodeId, NodeId>, graphs: map<NodeId, seq<NodeId>>, awhs: seq<NodeId>, chosen: NodeId, smallest: NodeId)
    returns (heads': map<NodeId, NodeId>, graphs': map<NodeId, seq<NodeId>>)
    requires Reachable(Groups(heads, graphs)) && smallest in graphs
    requires forall k :: 0 <= k < |awhs| ==> awhs[k] in heads
    ensures Groups(heads', graphs') == MergeArgGroups3(Groups(heads, graphs), awhs, chosen, smallest)
  {
    heads', graphs' := heads, graphs;
    var k := 0;
    while k < |awhs|
      invariant 0 <= k <= |awhs|
      invariant Groups(heads', graphs') == MergeArgGroups3(Groups(heads, graphs), awhs[..k], chosen, smallest)
    {
      heads', graphs' := MergeOneArgGroup(Groups(heads, graphs), heads', graphs', awhs, k, chosen, smallest);
      k := k + 1;
    }
    assert awhs[..k] == awhs;
  }

  /** One turn of the merge loop: the group of awhs[k] is absorbed unless awhs[k] is the chosen argument. */
  method MergeOneArgGroup(ghost st: Groups, heads: map<NodeId, NodeId>, graphs: map<NodeId, seq<NodeId>>,
                          awhs: seq<NodeId>, k: nat, chosen: NodeId, smallest: NodeId)
    returns (heads': map<NodeId, NodeId>, graphs': map<NodeId, seq<NodeId>>)
    requires Reachable(st) && smallest in st.graphs
    requires forall i :: 0 <= i < |awhs| ==> awhs[i] in st.heads
    requires k < |awhs| && Groups(heads, graphs) == MergeArgGroups3(st, awhs[..k], chosen, smallest)
    ensures Groups(heads', graphs') == MergeArgGroups3(st, awhs[..k + 1], chosen, smallest)
  {
    MergeArgGroups3Next(st, awhs, chosen, smallest, k);
    heads', graphs' := heads, graphs;
    var awh := awhs[k];
    if awh != chosen {
      var src := heads[awh];
      GroupMembersHaveHeads(Groups(heads, graphs), src);
      heads', graphs' := AbsorbGroup(heads, graphs, src, smallest);
    }
  }

  /**
    Appends the group of `src` to the group of `dst`, then re-heads every member of
    graphs.at(src), read after the append as the range-for reads it.
  */
  method AbsorbGroup(heads: map<NodeId, NodeId>, graphs: map<NodeId, seq<NodeId>>, src: NodeId, dst: NodeId)
    returns (heads': map<NodeId, NodeId>, graphs': map<NodeId, seq<NodeId>>)
    requires src in graphs && dst in graphs
    requires forall i :: 0 <= i < |graphs[src]| ==> graphs[src][i] in heads
    ensures Groups(heads', graphs') == Absorb(Groups(heads, graphs), src, dst)
  {
    graphs' := graphs[dst := graphs[dst] + graphs[src]];
    var members := graphs'[src];
    SameMembers(graphs[src], members, src == dst);
    heads' := heads;
    var j := 0;
    while j < |members|
      invariant 0 <= j <= |members|
      invariant heads'.Keys == heads.Keys
      invariant forall x :: x in heads ==> heads'[x] == if x in members[..j] then dst else heads[x]
    {
      assert members[j] in heads';
      assert forall x :: x in members[..j + 1] <==> x in members[..j] || x == members[j];
      heads' := heads'[members[j] := dst];
      j := j + 1;
    }
    assert members[..j] == members;
    assert heads' == Absorb(Groups(heads, graphs), src, dst).heads;
  }

  /** In a reachable state the members of one group all have heads. */
  lemma {:induction false} GroupMembersHaveHeads(st: Groups, h: NodeId)
    requires Reachable(st) && h in st.graphs
    ensures forall i :: 0 <= i < |st.graphs[h]| ==> st.graphs[h][i] in st.heads
  {
  }

  /** The group re-read after the append has the members it had before, once or twice over. */
  lemma {:induction false} SameMembers(before: seq<NodeId>, after: seq<NodeId>, doubled: bool)
    requires after == if doubled then before + before else before
    ensures forall x :: x in after <==> x in before
  {
    if doubled {
      forall x | x in after
        ensures x in before
      {
        var i :| 0 <= i < |after| && after[i] == x;
        if i >= |before| {
          assert before[i - |before|] == x;
        }
      }
    }
  }

  /** The erase-while-iterating loop of test/cpu_fusion.cpp:1886-1896. */
  method PruneSmall(graphs: map<NodeId, seq<NodeId>>, minNodesToFuse: nat) returns (kept: map<NodeId, seq<NodeId>>)
    ensures kept == Prune(graphs, minNodesToFuse)
  {
    kept := graphs;
    var pending := graphs.Keys;
    while pending != {}
      invariant pending <= graphs.Keys
      invariant forall h :: h in kept <==> h in graphs && (h in pending || |graphs[h]| >= minNodesToFuse)
      invariant forall h :: h in kept ==> kept[h] == graphs[h]
      decreases pending
    {
      var h :| h in pending;
      if |kept[h]| < minNodesToFuse {
        kept := kept - {h};
      }
      pending := pending - {h};
    }
    assert kept == Prune(graphs, minNodesToFuse);
  }
}
