/**
  The loop-kernel partitioner of test/cpu_fusion.cpp as functions over values.

  A partition state is the pair of maps the C++ code keeps: `heads` sends every grouped
  node to the head of its group, and `graphs` sends every head to the ordered list of its
  members. The functions below are the specification that the LoopKernelCollector class
  (loop_kernel_collector.dfy) is proved to follow, and the lemmas state what the source
  promises about the result.
*/
module Partition {
  import opened Wrappers
  import opened Graph

  datatype Groups = Groups(heads: map<NodeId, NodeId>, graphs: map<NodeId, seq<NodeId>>)

  const Empty: Groups := Groups(map[], map[])

  /** std::unordered_map::insert: leaves the map alone when the key is already present. */
  function Insert<K, V>(m: map<K, V>, k: K, v: V): map<K, V> {
    if k in m then m else m[k := v]
  }

  // ---------------------------------------------------------------------------
  // The partition invariant
  // ---------------------------------------------------------------------------

  /** Every group is non-empty and its head is its first member. */
  ghost predicate HeadFirst(st: Groups) {
    forall h :: h in st.graphs ==> |st.graphs[h]| > 0 && st.graphs[h][0] == h
  }

  /** Every member of the group keyed `h` has head `h`. */
  ghost predicate MembersHeaded(st: Groups) {
    forall h, i :: h in st.graphs && 0 <= i < |st.graphs[h]| ==>
      st.graphs[h][i] in st.heads && st.heads[st.graphs[h][i]] == h
  }

  /** Every node that has a head lies in that head's group. */
  ghost predicate HeadedAreMembers(st: Groups) {
    forall x :: x in st.heads ==> st.heads[x] in st.graphs && x in st.graphs[st.heads[x]]
  }

  /** No group lists a node twice. */
  ghost predicate NoDuplicates(st: Groups) {
    forall h, i, j :: h in st.graphs && 0 <= i < j < |st.graphs[h]| ==> st.graphs[h][i] != st.graphs[h][j]
  }

  /** Every head a node points to keys a group: what `m_graphs.at(m_heads.at(x))` needs. */
  ghost predicate HeadsAreKeys(st: Groups) {
    forall x :: x in st.heads ==> st.heads[x] in st.graphs
  }

  ghost predicate Valid(st: Groups) {
    HeadFirst(st) && MembersHeaded(st) && HeadedAreMembers(st) && NoDuplicates(st)
  }

  /** A node whose argument is grouped is in the same group as that argument. */
  ghost predicate Closed(g: Graph, st: Groups) {
    forall x, a :: x in st.heads && a in st.heads && Consumes(g, x, a) ==> st.heads[x] == st.heads[a]
  }

  /** No member of a group is listed before one of its own producers in that group. */
  ghost predicate Ordered(g: Graph, graphs: map<NodeId, seq<NodeId>>) {
    forall h, i, j :: h in graphs && 0 <= i < j < |graphs[h]| ==> !Consumes(g, graphs[h][i], graphs[h][j])
  }

  lemma {:induction false} MemberIffHeaded(st: Groups, h: NodeId, x: NodeId)
    requires MembersHeaded(st) && HeadedAreMembers(st) && h in st.graphs
    ensures x in st.graphs[h] <==> x in st.heads && st.heads[x] == h
  {
    if x in st.graphs[h] {
      var i :| 0 <= i < |st.graphs[h]| && st.graphs[h][i] == x;
    }
  }

  // ---------------------------------------------------------------------------
  // collect_fusable_args
  // ---------------------------------------------------------------------------

  /**
    The argument whose head is smallest in address order, scanning `args` from left to
    right and replacing the current choice only on a strictly smaller head (the `<` of
    test/cpu_fusion.cpp:2014). None when no argument is grouped yet.
  */
  function SmallestHeadArg(heads: map<NodeId, NodeId>, addr: NodeId -> nat, args: seq<NodeId>): (r: Option<NodeId>)
    ensures r.None? <==> forall k :: 0 <= k < |args| ==> args[k] !in heads
    ensures r.Some? ==> r.value in heads && r.value in args
    decreases |args|
  {
    if args == [] then None
    else
      var prev := SmallestHeadArg(heads, addr, args[..|args| - 1]);
      var arg := args[|args| - 1];
      if arg !in heads then prev
      else if prev.None? then Some(arg)
      else if addr(heads[arg]) < addr(heads[prev.value]) then Some(arg)
      else prev
  }

  /** The grouped arguments, in argument order (m_args_with_heads). */
  function ArgsWithHeads(heads: map<NodeId, NodeId>, args: seq<NodeId>): (r: seq<NodeId>)
    ensures forall k :: 0 <= k < |r| ==> r[k] in heads
    decreases |args|
  {
    if args == [] then []
    else
      var prev := ArgsWithHeads(heads, args[..|args| - 1]);
      var arg := args[|args| - 1];
      if arg in heads then prev + [arg] else prev
  }

  /**
    The chosen argument has a head no larger than any other grouped argument's, and every
    grouped argument before it has a strictly larger head: the first of the smallest.
  */
  lemma {:induction false} SmallestHeadArgIsFirstSmallest(heads: map<NodeId, NodeId>, addr: NodeId -> nat, args: seq<NodeId>)
    ensures var r := SmallestHeadArg(heads, addr, args);
      r.Some? ==>
        && (forall k :: 0 <= k < |args| && args[k] in heads ==> addr(heads[r.value]) <= addr(heads[args[k]]))
        && exists k :: (0 <= k < |args| && args[k] == r.value &&
             forall j :: 0 <= j < k && args[j] in heads ==> addr(heads[r.value]) < addr(heads[args[j]]))
    decreases |args|
  {
    if args != [] {
      var init := args[..|args| - 1];
      SmallestHeadArgIsFirstSmallest(heads, addr, init);
      var prev := SmallestHeadArg(heads, addr, init);
      var r := SmallestHeadArg(heads, addr, args);
      if r.Some? {
        forall k | 0 <= k < |args| && args[k] in heads
          ensures addr(heads[r.value]) <= addr(heads[args[k]])
        {
          if k < |args| - 1 {
            assert init[k] == args[k];
          }
        }
        if r == prev {
          var k0 :| 0 <= k0 < |init| && init[k0] == r.value &&
            forall j :: 0 <= j < k0 && init[j] in heads ==> addr(heads[r.value]) < addr(heads[init[j]]);
          assert args[k0] == r.value;
          forall j | 0 <= j < k0 && args[j] in heads
            ensures addr(heads[r.value]) < addr(heads[args[j]])
          {
            assert init[j] == args[j];
          }
        } else {
          var last := |args| - 1;
          forall j | 0 <= j < last && args[j] in heads
            ensures addr(heads[r.value]) < addr(heads[args[j]])
          {
            assert init[j] == args[j];
          }
          assert args[last] == r.value;
        }
      }
    }
  }

  /** The grouped arguments are exactly the arguments that have a head, in argument order. */
  lemma {:induction false} ArgsWithHeadsExact(heads: map<NodeId, NodeId>, args: seq<NodeId>)
    ensures forall x :: x in ArgsWithHeads(heads, args) <==> x in args && x in heads
    decreases |args|
  {
    if args != [] {
      var init := args[..|args| - 1];
      ArgsWithHeadsExact(heads, init);
      assert args == init + [args[|args| - 1]];
    }
  }

  /** One more argument of the scan: the step both loops over the arguments take. */
  lemma {:induction false} ScanNext(heads: map<NodeId, NodeId>, addr: NodeId -> nat, args: seq<NodeId>, k: nat)
    requires k < |args|
    ensures var prev := SmallestHeadArg(heads, addr, args[..k]);
      SmallestHeadArg(heads, addr, args[..k + 1]) ==
        if args[k] !in heads then prev
        else if prev.None? || addr(heads[args[k]]) < addr(heads[prev.value]) then Some(args[k])
        else prev
    ensures ArgsWithHeads(heads, args[..k + 1]) ==
      if args[k] in heads then ArgsWithHeads(heads, args[..k]) + [args[k]] else ArgsWithHeads(heads, args[..k])
  {
    assert args[..k + 1][..k] == args[..k];
  }

  /** With no grouped argument there is no argument to merge. */
  lemma {:induction false} NoGroupedArgs(heads: map<NodeId, NodeId>, args: seq<NodeId>)
    requires forall k :: 0 <= k < |args| ==> args[k] !in heads
    ensures ArgsWithHeads(heads, args) == []
    decreases |args|
  {
    if args != [] {
      NoGroupedArgs(heads, args[..|args| - 1]);
    }
  }

  // ---------------------------------------------------------------------------
  // merge
  // ---------------------------------------------------------------------------

  /**
    LoopKernelCollector::merge(src, dst): append src's members to dst's group, move every
    node headed by src to dst, and drop the group keyed src. Only meaningful for two
    distinct groups; MergeAsWritten models the call with src == dst. The C++ re-heads the
    members of src's group one by one; under the partition invariant those are exactly the
    nodes headed by src (MergeRelabelsMembers), and on the heads map the merge is then
    update_leader(src, dst) (test/cpu_fusion.cpp:1548-1559).
  */
  function MergeGroups(st: Groups, src: NodeId, dst: NodeId): (r: Groups)
    requires src in st.graphs && dst in st.graphs && src != dst
    ensures r.heads.Keys == st.heads.Keys
    ensures r.graphs.Keys == st.graphs.Keys - {src}
    ensures r.graphs[dst] == st.graphs[dst] + st.graphs[src]
    ensures forall h :: h in r.graphs && h != dst ==> r.graphs[h] == st.graphs[h]
    ensures forall x :: x in r.heads ==> r.heads[x] == if st.heads[x] == src then dst else st.heads[x]
  {
    Groups(map x | x in st.heads :: if st.heads[x] == src then dst else st.heads[x],
           st.graphs[dst := st.graphs[dst] + st.graphs[src]] - {src})
  }

  /** Under the invariant, the members of src's group are exactly the nodes headed by src. */
  lemma {:induction false} MergeRelabelsMembers(st: Groups, src: NodeId, dst: NodeId)
    requires MembersHeaded(st) && HeadedAreMembers(st) && src in st.graphs && dst in st.graphs && src != dst
    ensures forall x :: x in st.heads ==>
      MergeGroups(st, src, dst).heads[x] == if x in st.graphs[src] then dst else st.heads[x]
  {
    forall x | x in st.heads
      ensures MergeGroups(st, src, dst).heads[x] == if x in st.graphs[src] then dst else st.heads[x]
    {
      MemberIffHeaded(st, src, x);
    }
  }

  /** What merge(src, _) relies on: src keys a group whose members are exactly the nodes headed by src. */
  ghost predicate MergeReady(st: Groups, src: NodeId) {
    && src in st.graphs
    && (forall i :: 0 <= i < |st.graphs[src]| ==> st.graphs[src][i] in st.heads)
    && (forall x :: x in st.heads ==> (st.heads[x] == src <==> x in st.graphs[src]))
  }

  lemma {:induction false} ValidMergeReady(st: Groups, src: NodeId)
    requires MembersHeaded(st) && HeadedAreMembers(st) && src in st.graphs
    ensures MergeReady(st, src)
  {
    forall x | x in st.heads
      ensures st.heads[x] == src <==> x in st.graphs[src]
    {
      MemberIffHeaded(st, src, x);
    }
  }

  lemma {:induction false} MergeKeepsMembersHeaded(st: Groups, src: NodeId, dst: NodeId)
    requires HeadFirst(st) && MembersHeaded(st) && src in st.graphs && dst in st.graphs && src != dst
    ensures MembersHeaded(MergeGroups(st, src, dst)) && HeadFirst(MergeGroups(st, src, dst))
  {
    var r := MergeGroups(st, src, dst);
    var A, B := st.graphs[dst], st.graphs[src];
    forall h, i | h in r.graphs && 0 <= i < |r.graphs[h]|
      ensures r.graphs[h][i] in r.heads && r.heads[r.graphs[h][i]] == h
    {
      var x := r.graphs[h][i];
      if h == dst {
        if i < |A| {
          assert x == A[i];
        } else {
          assert x == B[i - |A|];
        }
      } else {
        assert x == st.graphs[h][i];
      }
    }
    assert (A + B)[0] == A[0];
  }

  lemma {:induction false} MergeKeepsHeadedAreMembers(st: Groups, src: NodeId, dst: NodeId)
    requires HeadedAreMembers(st) && src in st.graphs && dst in st.graphs && src != dst
    ensures HeadedAreMembers(MergeGroups(st, src, dst))
  {
    var r := MergeGroups(st, src, dst);
    var A, B := st.graphs[dst], st.graphs[src];
    forall x | x in r.heads
      ensures r.heads[x] in r.graphs && x in r.graphs[r.heads[x]]
    {
      var h := st.heads[x];
      if h == src {
        var k :| 0 <= k < |B| && B[k] == x;
        assert (A + B)[|A| + k] == x;
      } else if h == dst {
        var k :| 0 <= k < |A| && A[k] == x;
        assert (A + B)[k] == x;
      }
    }
  }

  lemma {:induction false} MergeKeepsNoDuplicates(st: Groups, src: NodeId, dst: NodeId)
    requires MembersHeaded(st) && NoDuplicates(st) && src in st.graphs && dst in st.graphs && src != dst
    ensures NoDuplicates(MergeGroups(st, src, dst))
  {
    var r := MergeGroups(st, src, dst);
    var A, B := st.graphs[dst], st.graphs[src];
    forall h, i, j | h in r.graphs && 0 <= i < j < |r.graphs[h]|
      ensures r.graphs[h][i] != r.graphs[h][j]
    {
      if h == dst {
        var s := A + B;
        if j < |A| {
          assert s[i] == A[i] && s[j] == A[j];
        } else if i >= |A| {
          assert s[i] == B[i - |A|] && s[j] == B[j - |A|];
        } else {
          assert s[i] == A[i] && s[j] == B[j - |A|];
          assert st.heads[A[i]] == dst && st.heads[B[j - |A|]] == src;
        }
      }
    }
  }

  /** A merge of two distinct groups keeps the partition invariant. */
  lemma {:induction false} MergePreservesValid(st: Groups, src: NodeId, dst: NodeId)
    requires Valid(st) && src in st.graphs && dst in st.graphs && src != dst
    ensures Valid(MergeGroups(st, src, dst))
  {
    MergeKeepsMembersHeaded(st, src, dst);
    MergeKeepsHeadedAreMembers(st, src, dst);
    MergeKeepsNoDuplicates(st, src, dst);
  }

  /** Merging moves whole groups, so nodes that shared a head still do. */
  lemma {:induction false} MergeKeepsClosed(g: Graph, st: Groups, src: NodeId, dst: NodeId)
    requires Closed(g, st) && src in st.graphs && dst in st.graphs && src != dst
    ensures Closed(g, MergeGroups(st, src, dst))
  {
  }

  /** A merge of two distinct groups keeps their members listed after their in-group producers. */
  lemma {:induction false} MergeKeepsOrdered(g: Graph, st: Groups, src: NodeId, dst: NodeId)
    requires MembersHeaded(st) && Closed(g, st) && Ordered(g, st.graphs)
    requires src in st.graphs && dst in st.graphs && src != dst
    ensures Ordered(g, MergeGroups(st, src, dst).graphs)
  {
    var r := MergeGroups(st, src, dst);
    var A, B := st.graphs[dst], st.graphs[src];
    forall h, i, j | h in r.graphs && 0 <= i < j < |r.graphs[h]|
      ensures !Consumes(g, r.graphs[h][i], r.graphs[h][j])
    {
      if h == dst {
        var s := A + B;
        if j < |A| {
          assert s[i] == A[i] && s[j] == A[j];
        } else if i >= |A| {
          assert s[i] == B[i - |A|] && s[j] == B[j - |A|];
        } else {
          assert s[i] == A[i] && s[j] == B[j - |A|];
          assert st.heads[A[i]] == dst && st.heads[B[j - |A|]] == src;
        }
      }
    }
  }

  /**
    The merge loop of test/cpu_fusion.cpp:1929-1935: every grouped argument other than the
    chosen one has its group merged into the group of `smallest`, unless that argument is
    already headed by `smallest` (see MergeArgGroupsAsWritten for the loop without that test).
  */
  function MergeArgGroups(st: Groups, awhs: seq<NodeId>, chosen: NodeId, smallest: NodeId): (r: Groups)
    requires HeadsAreKeys(st) && smallest in st.graphs
    requires forall k :: 0 <= k < |awhs| ==> awhs[k] in st.heads
    ensures HeadsAreKeys(r) && r.heads.Keys == st.heads.Keys && smallest in r.graphs
    decreases |awhs|
  {
    if awhs == [] then st
    else
      var prev := MergeArgGroups(st, awhs[..|awhs| - 1], chosen, smallest);
      var awh := awhs[|awhs| - 1];
      if awh != chosen && prev.heads[awh] != smallest then MergeGroups(prev, prev.heads[awh], smallest)
      else prev
  }

  /** One more turn of the merge loop. */
  lemma {:induction false} MergeArgGroupsNext(st: Groups, awhs: seq<NodeId>, chosen: NodeId, smallest: NodeId, k: nat)
    requires HeadsAreKeys(st) && smallest in st.graphs
    requires forall i :: 0 <= i < |awhs| ==> awhs[i] in st.heads
    requires k < |awhs|
    ensures var prev := MergeArgGroups(st, awhs[..k], chosen, smallest);
      MergeArgGroups(st, awhs[..k + 1], chosen, smallest) ==
        if awhs[k] != chosen && prev.heads[awhs[k]] != smallest then MergeGroups(prev, prev.heads[awhs[k]], smallest)
        else prev
  {
    assert awhs[..k + 1][..k] == awhs[..k];
  }

  /**
    After the merge loop every grouped argument (the chosen one included) and every node
    already in the chosen group is headed by `smallest`.
  */
  lemma {:induction false} MergeArgGroupsJoins(st: Groups, awhs: seq<NodeId>, chosen: NodeId, smallest: NodeId, x: NodeId)
    requires HeadsAreKeys(st) && smallest in st.graphs
    requires forall k :: 0 <= k < |awhs| ==> awhs[k] in st.heads
    requires chosen in st.heads && st.heads[chosen] == smallest
    requires x in st.heads && (x in awhs || st.heads[x] == smallest)
    ensures MergeArgGroups(st, awhs, chosen, smallest).heads[x] == smallest
    decreases |awhs|
  {
    if awhs != [] {
      var init := awhs[..|awhs| - 1];
      if x in init || st.heads[x] == smallest {
        MergeArgGroupsJoins(st, init, chosen, smallest, x);
      } else {
        MergeArgGroupsJoins(st, init, chosen, smallest, chosen);
      }
    }
  }

  /** Every grouped argument of the node ends up headed by `smallest`. */
  lemma {:induction false} MergeArgGroupsJoinsArgs(st: Groups, args: seq<NodeId>, chosen: NodeId, smallest: NodeId)
    requires HeadsAreKeys(st) && smallest in st.graphs
    requires chosen in st.heads && st.heads[chosen] == smallest
    ensures forall k :: 0 <= k < |args| && args[k] in st.heads ==>
      MergeArgGroups(st, ArgsWithHeads(st.heads, args), chosen, smallest).heads[args[k]] == smallest
  {
    var awhs := ArgsWithHeads(st.heads, args);
    ArgsWithHeadsExact(st.heads, args);
    forall k | 0 <= k < |args| && args[k] in st.heads
      ensures MergeArgGroups(st, awhs, chosen, smallest).heads[args[k]] == smallest
    {
      assert args[k] in args;
      MergeArgGroupsJoins(st, awhs, chosen, smallest, args[k]);
    }
  }

  /** Before each turn of the merge loop, the group about to be merged is ready for merge. */
  lemma {:induction false} MergeArgGroupsReady(st: Groups, awhs: seq<NodeId>, chosen: NodeId, smallest: NodeId, k: nat)
    requires Valid(st) && HeadsAreKeys(st) && smallest in st.graphs
    requires forall i :: 0 <= i < |awhs| ==> awhs[i] in st.heads
    requires k < |awhs|
    ensures var cur := MergeArgGroups(st, awhs[..k], chosen, smallest);
      awhs[k] in cur.heads && MergeReady(cur, cur.heads[awhs[k]])
  {
    var cur := MergeArgGroups(st, awhs[..k], chosen, smallest);
    MergeArgGroupsPreservesValid(st, awhs[..k], chosen, smallest);
    ValidMergeReady(cur, cur.heads[awhs[k]]);
  }

  lemma {:induction false} MergeArgGroupsPreservesValid(st: Groups, awhs: seq<NodeId>, chosen: NodeId, smallest: NodeId)
    requires Valid(st) && smallest in st.graphs
    requires forall k :: 0 <= k < |awhs| ==> awhs[k] in st.heads
    ensures Valid(MergeArgGroups(st, awhs, chosen, smallest))
    decreases |awhs|
  {
    if awhs != [] {
      var init := awhs[..|awhs| - 1];
      MergeArgGroupsPreservesValid(st, init, chosen, smallest);
      var prev := MergeArgGroups(st, init, chosen, smallest);
      var awh := awhs[|awhs| - 1];
      if awh != chosen && prev.heads[awh] != smallest {
        MergePreservesValid(prev, prev.heads[awh], smallest);
      }
    }
  }

  lemma {:induction false} MergeArgGroupsKeepsClosed(g: Graph, st: Groups, awhs: seq<NodeId>, chosen: NodeId, smallest: NodeId)
    requires HeadsAreKeys(st) && smallest in st.graphs
    requires forall k :: 0 <= k < |awhs| ==> awhs[k] in st.heads
    requires Closed(g, st)
    ensures Closed(g, MergeArgGroups(st, awhs, chosen, smallest))
    decreases |awhs|
  {
    if awhs != [] {
      var init := awhs[..|awhs| - 1];
      MergeArgGroupsKeepsClosed(g, st, init, chosen, smallest);
      var prev := MergeArgGroups(st, init, chosen, smallest);
      var awh := awhs[|awhs| - 1];
      if awh != chosen && prev.heads[awh] != smallest {
        MergeKeepsClosed(g, prev, prev.heads[awh], smallest);
      }
    }
  }

  lemma {:induction false} MergeArgGroupsKeepsOrdered(g: Graph, st: Groups, awhs: seq<NodeId>, chosen: NodeId, smallest: NodeId)
    requires Valid(st) && smallest in st.graphs
    requires forall k :: 0 <= k < |awhs| ==> awhs[k] in st.heads
    requires Closed(g, st) && Ordered(g, st.graphs)
    ensures Ordered(g, MergeArgGroups(st, awhs, chosen, smallest).graphs)
    decreases |awhs|
  {
    if awhs != [] {
      var init := awhs[..|awhs| - 1];
      MergeArgGroupsKeepsOrdered(g, st, init, chosen, smallest);
      MergeArgGroupsPreservesValid(st, init, chosen, smallest);
      MergeArgGroupsKeepsClosed(g, st, init, chosen, smallest);
      var prev := MergeArgGroups(st, init, chosen, smallest);
      var awh := awhs[|awhs| - 1];
      if awh != chosen && prev.heads[awh] != smallest {
        MergeKeepsOrdered(g, prev, prev.heads[awh], smallest);
      }
    }
  }

  // ---------------------------------------------------------------------------
  // One node of the walk, the whole walk, pruning
  // ---------------------------------------------------------------------------

  /** A fusable node none of whose arguments is grouped starts the group [n] (test/cpu_fusion.cpp:1910-1915). */
  function StartGroup(st: Groups, n: NodeId): Groups {
    Groups(Insert(st.heads, n, n), Insert(st.graphs, n, [n]))
  }

  /** n is appended to the group keyed h and headed by h (test/cpu_fusion.cpp:1937-1940). */
  function JoinGroup(st: Groups, n: NodeId, h: NodeId): Groups
    requires h in st.graphs
  {
    Groups(Insert(st.heads, n, h), st.graphs[h := st.graphs[h] + [n]])
  }

  /** A new node starts a singleton group headed by itself, and no other group changes. */
  lemma {:induction false} StartGroupKeepsValid(st: Groups, n: NodeId)
    requires Valid(st) && n !in st.heads
    ensures Valid(StartGroup(st, n))
    ensures StartGroup(st, n).graphs == st.graphs[n := [n]] && StartGroup(st, n).heads == st.heads[n := n]
  {
    forall h | h in st.graphs
      ensures h != n
    {
      assert st.graphs[h][0] == h && st.graphs[h][0] in st.heads;
    }
  }

  lemma {:induction false} JoinGroupKeepsValid(st: Groups, n: NodeId, h: NodeId)
    requires Valid(st) && n !in st.heads && h in st.graphs
    ensures Valid(JoinGroup(st, n, h))
  {
    var r := JoinGroup(st, n, h);
    var grp := st.graphs[h];
    assert r == Groups(st.heads[n := h], st.graphs[h := grp + [n]]);
    forall k, i | k in r.graphs && 0 <= i < |r.graphs[k]|
      ensures r.graphs[k][i] in r.heads && r.heads[r.graphs[k][i]] == k
    {
      if k == h && i < |grp| {
        assert r.graphs[k][i] == grp[i];
      }
    }
    forall k, i, j | k in r.graphs && 0 <= i < j < |r.graphs[k]|
      ensures r.graphs[k][i] != r.graphs[k][j]
    {
      if k == h {
        if j < |grp| {
          assert r.graphs[k][i] == grp[i] && r.graphs[k][j] == grp[j];
        } else {
          assert r.graphs[k][i] == grp[i] && grp[i] in st.heads;
        }
      }
    }
    forall x | x in r.heads
      ensures r.heads[x] in r.graphs && x in r.graphs[r.heads[x]]
    {
      if x != n && st.heads[x] == h {
        var k :| 0 <= k < |grp| && grp[k] == x;
        assert (grp + [n])[k] == x;
      }
    }
  }

  /** A singleton group for a node with no grouped argument and no grouped consumer keeps the order facts. */
  lemma {:induction false} StartGroupKeepsOrder(g: Graph, st: Groups, n: NodeId)
    requires HeadFirst(st) && MembersHeaded(st) && n !in st.heads
    requires Closed(g, st) && Ordered(g, st.graphs)
    requires forall x :: x in st.heads ==> !Consumes(g, x, n)
    requires forall a :: a in st.heads ==> !Consumes(g, n, a)
    ensures Closed(g, StartGroup(st, n)) && Ordered(g, StartGroup(st, n).graphs)
  {
    forall h | h in st.graphs
      ensures h != n
    {
      assert st.graphs[h][0] == h && st.graphs[h][0] in st.heads;
    }
    assert StartGroup(st, n) == Groups(st.heads[n := n], st.graphs[n := [n]]);
  }

  /** Appending a node whose grouped arguments all have head h, and which no grouped node consumes, keeps the order facts. */
  lemma {:induction false} JoinGroupKeepsOrder(g: Graph, st: Groups, n: NodeId, h: NodeId)
    requires MembersHeaded(st) && n !in st.heads && h in st.graphs
    requires Closed(g, st) && Ordered(g, st.graphs)
    requires forall x :: x in st.heads ==> !Consumes(g, x, n)
    requires forall a :: a in st.heads && Consumes(g, n, a) ==> st.heads[a] == h
    requires !Consumes(g, n, n)
    ensures Closed(g, JoinGroup(st, n, h)) && Ordered(g, JoinGroup(st, n, h).graphs)
  {
    var r := JoinGroup(st, n, h);
    var grp := st.graphs[h];
    assert r == Groups(st.heads[n := h], st.graphs[h := grp + [n]]);
    forall k, i, j | k in r.graphs && 0 <= i < j < |r.graphs[k]|
      ensures !Consumes(g, r.graphs[k][i], r.graphs[k][j])
    {
      if k == h {
        if j < |grp| {
          assert r.graphs[k][i] == grp[i] && r.graphs[k][j] == grp[j];
        } else {
          assert r.graphs[k][i] == grp[i] && grp[i] in st.heads;
        }
      }
    }
  }

  /**
    The body of the constructor's loop for one node `n` (test/cpu_fusion.cpp:1906-1945):
    a fusable node with no grouped argument starts the group [n]; otherwise the groups of
    its grouped arguments are merged into the one with the smallest head and n is
    appended to it. A node that is not fusable changes nothing.
  */
  function Step(g: Graph, addr: NodeId -> nat, st: Groups, n: NodeId): (r: Groups)
    requires n < |g| && HeadsAreKeys(st)
    ensures HeadsAreKeys(r)
    ensures r.heads.Keys == st.heads.Keys + (if IsFusable(g, n) then {n} else {})
  {
    if !IsFusable(g, n) then st
    else
      var chosen := SmallestHeadArg(st.heads, addr, g[n].args);
      if chosen.None? then StartGroup(st, n)
      else
        var smallest := st.heads[chosen.value];
        JoinGroup(MergeArgGroups(st, ArgsWithHeads(st.heads, g[n].args), chosen.value, smallest), n, smallest)
  }

  /**
    A fusable node none of whose arguments is grouped starts the group [n] and is its own
    head; no other group or head changes (test/cpu_fusion.cpp:1910-1915).
  */
  lemma {:induction false} StepStartsGroup(g: Graph, addr: NodeId -> nat, st: Groups, n: NodeId)
    requires n < |g| && HeadsAreKeys(st) && IsFusable(g, n) && n !in st.heads && n !in st.graphs
    requires forall k :: 0 <= k < |g[n].args| ==> g[n].args[k] !in st.heads
    ensures Step(g, addr, st, n) == Groups(st.heads[n := n], st.graphs[n := [n]])
  {
  }

  /**
    A fusable node whose grouped arguments are all the one node `a` merges nothing and is
    appended to the group of a's head.
  */
  lemma {:induction false} StepJoinsArgGroup(g: Graph, addr: NodeId -> nat, st: Groups, n: NodeId, a: NodeId)
    requires n < |g| && HeadsAreKeys(st) && IsFusable(g, n) && a in st.heads && a in g[n].args
    requires forall k :: 0 <= k < |g[n].args| && g[n].args[k] in st.heads ==> g[n].args[k] == a
    ensures Step(g, addr, st, n) == JoinGroup(st, n, st.heads[a])
  {
    var args := g[n].args;
    var i :| 0 <= i < |args| && args[i] == a;
    var chosen := SmallestHeadArg(st.heads, addr, args);
    assert chosen.Some?;
    var j :| 0 <= j < |args| && args[j] == chosen.value;
    var awhs := ArgsWithHeads(st.heads, args);
    ArgsWithHeadsExact(st.heads, args);
    forall k | 0 <= k < |awhs|
      ensures awhs[k] == a
    {
      assert awhs[k] in awhs;
      var j' :| 0 <= j' < |args| && args[j'] == awhs[k];
    }
    MergeArgGroupsOnlyChosen(st, awhs, a, st.heads[a]);
  }

  /** When every grouped argument is the chosen one, the merge loop changes nothing. */
  lemma {:induction false} MergeArgGroupsOnlyChosen(st: Groups, awhs: seq<NodeId>, chosen: NodeId, smallest: NodeId)
    requires HeadsAreKeys(st) && smallest in st.graphs && chosen in st.heads
    requires forall k :: 0 <= k < |awhs| ==> awhs[k] == chosen
    ensures MergeArgGroups(st, awhs, chosen, smallest) == st
    decreases |awhs|
  {
    if awhs != [] {
      MergeArgGroupsOnlyChosen(st, awhs[..|awhs| - 1], chosen, smallest);
    }
  }

  lemma {:induction false} StepPreservesValid(g: Graph, addr: NodeId -> nat, st: Groups, n: NodeId)
    requires n < |g| && Valid(st) && n !in st.heads
    ensures Valid(Step(g, addr, st, n))
  {
    if IsFusable(g, n) {
      var chosen := SmallestHeadArg(st.heads, addr, g[n].args);
      if chosen.None? {
        StartGroupKeepsValid(st, n);
      } else {
        var smallest := st.heads[chosen.value];
        var awhs := ArgsWithHeads(st.heads, g[n].args);
        MergeArgGroupsPreservesValid(st, awhs, chosen.value, smallest);
        JoinGroupKeepsValid(MergeArgGroups(st, awhs, chosen.value, smallest), n, smallest);
      }
    }
  }

  /**
    When `n` is not consumed by any grouped node (nor by itself), the step keeps the
    groups closed under argument edges and in topological order (test/cpu_fusion.cpp:1923-1926).
  */
  lemma {:induction false} StepPreservesOrder(g: Graph, addr: NodeId -> nat, st: Groups, n: NodeId)
    requires n < |g| && Valid(st) && n !in st.heads
    requires Closed(g, st) && Ordered(g, st.graphs)
    requires forall x :: x in st.heads ==> !Consumes(g, x, n)
    requires !Consumes(g, n, n)
    ensures Closed(g, Step(g, addr, st, n)) && Ordered(g, Step(g, addr, st, n).graphs)
  {
    if IsFusable(g, n) {
      var args := g[n].args;
      var chosen := SmallestHeadArg(st.heads, addr, args);
      if chosen.None? {
        forall a, k | a in st.heads && 0 <= k < |args|
          ensures args[k] != a
        {
        }
        StartGroupKeepsOrder(g, st, n);
      } else {
        MergeAndJoinKeepsOrder(g, st, n, chosen.value);
      }
    }
  }

  lemma {:induction false} MergeAndJoinKeepsOrder(g: Graph, st: Groups, n: NodeId, chosen: NodeId)
    requires n < |g| && Valid(st) && n !in st.heads && chosen in st.heads
    requires Closed(g, st) && Ordered(g, st.graphs)
    requires forall x :: x in st.heads ==> !Consumes(g, x, n)
    requires !Consumes(g, n, n)
    ensures var smallest := st.heads[chosen];
      var r := JoinGroup(MergeArgGroups(st, ArgsWithHeads(st.heads, g[n].args), chosen, smallest), n, smallest);
      Closed(g, r) && Ordered(g, r.graphs)
  {
    var smallest := st.heads[chosen];
    var awhs := ArgsWithHeads(st.heads, g[n].args);
    var merged := MergeArgGroups(st, awhs, chosen, smallest);
    MergeArgGroupsPreservesValid(st, awhs, chosen, smallest);
    MergeArgGroupsKeepsClosed(g, st, awhs, chosen, smallest);
    MergeArgGroupsKeepsOrdered(g, st, awhs, chosen, smallest);
    MergeArgGroupsJoinsArgs(st, g[n].args, chosen, smallest);
    JoinGroupKeepsOrder(g, merged, n, smallest);
  }

  /** The state after the constructor has walked `order` (before pruning). */
  function Run(g: Graph, addr: NodeId -> nat, order: seq<NodeId>): (r: Groups)
    requires ValidOrder(g, order)
    ensures HeadsAreKeys(r) && r.heads.Keys == FusableIn(g, order)
    decreases |order|
  {
    if order == [] then Empty
    else
      var init := order[..|order| - 1];
      var n := order[|order| - 1];
      assert FusableIn(g, order) == FusableIn(g, init) + (if IsFusable(g, n) then {n} else {});
      Step(g, addr, Run(g, addr, init), n)
  }

  /**
    is_fusable decides who is grouped: after the walk a node has a head exactly when it
    was visited and is fusable, so a node that is not fusable is in no group.
  */
  lemma {:induction false} GroupedIffFusable(g: Graph, addr: NodeId -> nat, order: seq<NodeId>, x: NodeId)
    requires ValidOrder(g, order) && x < |g|
    ensures x in Run(g, addr, order).heads <==> x in order && IsFusable(g, x)
    ensures !IsFusable(g, x) ==> forall h :: h in Run(g, addr, order).graphs ==> x !in Run(g, addr, order).graphs[h]
  {
    var r := Run(g, addr, order);
    if x in order && IsFusable(g, x) {
      var i :| 0 <= i < |order| && order[i] == x;
      assert x in FusableIn(g, order);
    }
    RunValid(g, addr, order);
    forall h | h in r.graphs
      ensures x in r.graphs[h] ==> x in r.heads
    {
      MemberIffHeaded(r, h, x);
    }
  }

  /** MergeArgGroupsReady for the state the walk has reached after `done`. */
  lemma {:induction false} RunMergeReady(g: Graph, addr: NodeId -> nat, done: seq<NodeId>, awhs: seq<NodeId>, chosen: NodeId, smallest: NodeId, k: nat)
    requires ValidOrder(g, done) && smallest in Run(g, addr, done).graphs
    requires forall i :: 0 <= i < |awhs| ==> awhs[i] in Run(g, addr, done).heads
    requires k < |awhs|
    ensures var cur := MergeArgGroups(Run(g, addr, done), awhs[..k], chosen, smallest);
      awhs[k] in cur.heads && MergeReady(cur, cur.heads[awhs[k]])
  {
    RunValid(g, addr, done);
    MergeArgGroupsReady(Run(g, addr, done), awhs, chosen, smallest, k);
  }

  /** The last node of a valid order is new, and the rest is a valid order. */
  lemma {:induction false} ValidOrderLast(g: Graph, order: seq<NodeId>)
    requires ValidOrder(g, order) && order != []
    ensures ValidOrder(g, order[..|order| - 1])
    ensures order[|order| - 1] < |g| && order[|order| - 1] !in FusableIn(g, order[..|order| - 1])
  {
    var init := order[..|order| - 1];
    forall x | x in FusableIn(g, init)
      ensures x != order[|order| - 1]
    {
      var i :| 0 <= i < |init| && init[i] == x;
      assert order[i] == x;
    }
  }

  /**
    In a topological order the last node consumes only earlier nodes, and no earlier
    node consumes it or itself.
  */
  lemma {:induction false} TopologicalLast(g: Graph, order: seq<NodeId>)
    requires IsTopological(g, order) && order != []
    ensures IsTopological(g, order[..|order| - 1])
    ensures forall i :: 0 <= i < |order| - 1 ==> !Consumes(g, order[i], order[|order| - 1])
    ensures !Consumes(g, order[|order| - 1], order[|order| - 1])
  {
    var init := order[..|order| - 1];
    var n := order[|order| - 1];
    ValidOrderLast(g, order);
    forall i, k | 0 <= i < |init| && 0 <= k < |g[init[i]].args|
      ensures g[init[i]].args[k] in init[..i]
    {
      assert init[..i] == order[..i];
    }
    forall p, k | 0 <= p < |init| && 0 <= k < |g[order[p]].args|
      ensures g[order[p]].args[k] != n
    {
      assert g[order[p]].args[k] in order[..p];
    }
    forall k | 0 <= k < |g[n].args|
      ensures g[n].args[k] != n
    {
      assert g[n].args[k] in order[..|order| - 1];
    }
  }

  /** The walk keeps the partition invariant at every node. */
  lemma {:induction false} RunValid(g: Graph, addr: NodeId -> nat, order: seq<NodeId>)
    requires ValidOrder(g, order)
    ensures Valid(Run(g, addr, order))
    decreases |order|
  {
    if order != [] {
      var init := order[..|order| - 1];
      ValidOrderLast(g, order);
      RunValid(g, addr, init);
      StepPreservesValid(g, addr, Run(g, addr, init), order[|order| - 1]);
    }
  }

  /**
    Over a topological order, every fusable node and its grouped argument share a group,
    and no group lists a member before one of its producers.
  */
  lemma {:induction false} RunOrdered(g: Graph, addr: NodeId -> nat, order: seq<NodeId>)
    requires IsTopological(g, order)
    ensures Closed(g, Run(g, addr, order)) && Ordered(g, Run(g, addr, order).graphs)
    decreases |order|
  {
    if order != [] {
      var init := order[..|order| - 1];
      var prev := Run(g, addr, init);
      TopologicalLast(g, order);
      RunOrdered(g, addr, init);
      RunValid(g, addr, init);
      forall x | x in prev.heads
        ensures !Consumes(g, x, order[|order| - 1])
      {
        var p :| 0 <= p < |init| && init[p] == x;
        assert order[p] == x;
      }
      StepPreservesOrder(g, addr, prev, order[|order| - 1]);
    }
  }

  /** Pruning keeps exactly the groups with at least `minNodesToFuse` members, unchanged. */
  function Prune(graphs: map<NodeId, seq<NodeId>>, minNodesToFuse: nat): (r: map<NodeId, seq<NodeId>>)
    ensures forall h :: h in r <==> h in graphs && |graphs[h]| >= minNodesToFuse
    ensures forall h :: h in r ==> r[h] == graphs[h]
  {
    map h | h in graphs && |graphs[h]| >= minNodesToFuse :: graphs[h]
  }

  /** The groups LoopKernelCollector::get_graphs reports for `order` and the minimum size. */
  function FusedGroups(g: Graph, addr: NodeId -> nat, order: seq<NodeId>, minNodesToFuse: nat): map<NodeId, seq<NodeId>>
    requires ValidOrder(g, order)
  {
    Prune(Run(g, addr, order).graphs, minNodesToFuse)
  }

  // ---------------------------------------------------------------------------
  // Connectivity: a group only grows along argument edges
  // ---------------------------------------------------------------------------

  /** One of x and y takes the other as an argument. */
  ghost predicate Adjacent(g: Graph, x: NodeId, y: NodeId) {
    Consumes(g, x, y) || Consumes(g, y, x)
  }

  /** p is a chain of argument edges, followed in either direction, through members of s. */
  ghost predicate IsChain(g: Graph, s: seq<NodeId>, p: seq<NodeId>) {
    && |p| > 0
    && (forall i :: 0 <= i < |p| ==> p[i] in s)
    && (forall i :: 0 <= i < |p| - 1 ==> Adjacent(g, p[i], p[i + 1]))
  }

  /** x and y are joined by a chain of argument edges that never leaves s. */
  ghost predicate Linked(g: Graph, s: seq<NodeId>, x: NodeId, y: NodeId) {
    exists p :: IsChain(g, s, p) && p[0] == x && p[|p| - 1] == y
  }

  /** Any two members of the group are joined by a chain of argument edges inside the group. */
  ghost predicate Connected(g: Graph, s: seq<NodeId>) {
    forall i, j :: 0 <= i < |s| && 0 <= j < |s| ==> Linked(g, s, s[i], s[j])
  }

  /** Every member is joined to the first one inside the group: the form the proofs carry. */
  ghost predicate Rooted(g: Graph, s: seq<NodeId>) {
    forall i :: 0 <= i < |s| ==> Linked(g, s, s[0], s[i])
  }

  ghost predicate AllRooted(g: Graph, graphs: map<NodeId, seq<NodeId>>) {
    forall h :: h in graphs ==> Rooted(g, graphs[h])
  }

  lemma {:induction false} LinkedRefl(g: Graph, s: seq<NodeId>, x: NodeId)
    requires x in s
    ensures Linked(g, s, x, x)
  {
    assert IsChain(g, s, [x]);
  }

  lemma {:induction false} LinkedEdge(g: Graph, s: seq<NodeId>, x: NodeId, y: NodeId)
    requires x in s && y in s && Adjacent(g, x, y)
    ensures Linked(g, s, x, y)
  {
    assert IsChain(g, s, [x, y]);
  }

  lemma {:induction false} LinkedSym(g: Graph, s: seq<NodeId>, x: NodeId, y: NodeId)
    requires Linked(g, s, x, y)
    ensures Linked(g, s, y, x)
  {
    var p :| IsChain(g, s, p) && p[0] == x && p[|p| - 1] == y;
    var q := seq(|p|, i requires 0 <= i < |p| => p[|p| - 1 - i]);
    forall i | 0 <= i < |q| - 1
      ensures Adjacent(g, q[i], q[i + 1])
    {
      assert Adjacent(g, p[|p| - 2 - i], p[|p| - 1 - i]);
    }
    assert IsChain(g, s, q);
  }

  lemma {:induction false} LinkedTrans(g: Graph, s: seq<NodeId>, x: NodeId, y: NodeId, z: NodeId)
    requires Linked(g, s, x, y) && Linked(g, s, y, z)
    ensures Linked(g, s, x, z)
  {
    var p :| IsChain(g, s, p) && p[0] == x && p[|p| - 1] == y;
    var q :| IsChain(g, s, q) && q[0] == y && q[|q| - 1] == z;
    var r := p + q[1..];
    forall i | 0 <= i < |r|
      ensures r[i] in s
    {
      if i < |p| {
        assert r[i] == p[i];
      } else {
        assert r[i] == q[i - |p| + 1];
      }
    }
    forall i | 0 <= i < |r| - 1
      ensures Adjacent(g, r[i], r[i + 1])
    {
      if i < |p| - 1 {
        assert r[i] == p[i] && r[i + 1] == p[i + 1];
      } else if i == |p| - 1 {
        assert r[i] == q[0] && r[i + 1] == q[1];
      } else {
        assert r[i] == q[i - |p| + 1] && r[i + 1] == q[i - |p| + 2];
      }
    }
    assert IsChain(g, s, r);
  }

  /** A chain inside s is a chain inside any sequence that lists every member of s. */
  lemma {:induction false} LinkedWiden(g: Graph, s: seq<NodeId>, t: seq<NodeId>, x: NodeId, y: NodeId)
    requires Linked(g, s, x, y) && forall z :: z in s ==> z in t
    ensures Linked(g, t, x, y)
  {
    var p :| IsChain(g, s, p) && p[0] == x && p[|p| - 1] == y;
    assert IsChain(g, t, p);
  }

  /** Joined to the first member means joined to each other. */
  lemma {:induction false} RootedConnected(g: Graph, s: seq<NodeId>)
    requires Rooted(g, s)
    ensures Connected(g, s)
  {
    forall i, j | 0 <= i < |s| && 0 <= j < |s|
      ensures Linked(g, s, s[i], s[j])
    {
      LinkedSym(g, s, s[0], s[i]);
      LinkedTrans(g, s, s[i], s[0], s[j]);
    }
  }

  /** x lies at some position of s, which is joined to the first member. */
  lemma {:induction false} RootedMember(g: Graph, s: seq<NodeId>, x: NodeId)
    requires Rooted(g, s) && x in s
    ensures Linked(g, s, s[0], x)
  {
    var i :| 0 <= i < |s| && s[i] == x;
  }

  /**
    The group of `smallest` while the merge loop runs: every member is joined to
    `smallest` once n, which consumes every grouped argument, is counted in; every other
    group is one of the groups the loop started from.
  */
  ghost predicate MergingRooted(g: Graph, st: Groups, cur: Groups, smallest: NodeId, n: NodeId)
    requires smallest in cur.graphs
  {
    && (forall h :: h in cur.graphs && h != smallest ==> h in st.graphs && cur.graphs[h] == st.graphs[h])
    && (forall i :: 0 <= i < |cur.graphs[smallest]| ==>
          Linked(g, cur.graphs[smallest] + [n], smallest, cur.graphs[smallest][i]))
  }

  /** Merging the group of a grouped argument `awh` of n into the group of `smallest` keeps MergingRooted. */
  lemma {:induction false} MergeKeepsMergingRooted(g: Graph, st: Groups, prev: Groups, awh: NodeId, chosen: NodeId, smallest: NodeId, n: NodeId)
    requires Valid(prev) && smallest in prev.graphs && AllRooted(g, st.graphs)
    requires MergingRooted(g, st, prev, smallest, n)
    requires awh in prev.heads && prev.heads[awh] != smallest && Consumes(g, n, awh)
    requires chosen in prev.heads && prev.heads[chosen] == smallest && Consumes(g, n, chosen)
    ensures MergingRooted(g, st, MergeGroups(prev, prev.heads[awh], smallest), smallest, n)
  {
    var src := prev.heads[awh];
    var A, B := prev.graphs[smallest], prev.graphs[src];
    var r := MergeGroups(prev, src, smallest);
    MemberIffHeaded(prev, smallest, chosen);
    MemberIffHeaded(prev, src, awh);
    var k :| 0 <= k < |A| && A[k] == chosen;
    assert Linked(g, A + [n], smallest, chosen);
    assert Rooted(g, B);
    MergedGroupRooted(g, A, B, n, smallest, chosen, awh);
    assert r.graphs[smallest] == A + B;
  }

  /** Group A, joined to `smallest` through n, absorbs the rooted group B that holds an argument of n. */
  lemma {:induction false} MergedGroupRooted(g: Graph, A: seq<NodeId>, B: seq<NodeId>, n: NodeId, smallest: NodeId, chosen: NodeId, awh: NodeId)
    requires forall i :: 0 <= i < |A| ==> Linked(g, A + [n], smallest, A[i])
    requires Linked(g, A + [n], smallest, chosen) && chosen in A && Consumes(g, n, chosen)
    requires |B| > 0 && Rooted(g, B) && awh in B && Consumes(g, n, awh)
    ensures forall i :: 0 <= i < |A + B| ==> Linked(g, A + B + [n], smallest, (A + B)[i])
  {
    RootedMember(g, B, awh);
    forall i | 0 <= i < |A + B|
      ensures Linked(g, A + B + [n], smallest, (A + B)[i])
    {
      if i < |A| {
        assert (A + B)[i] == A[i];
        forall z | z in A + [n]
          ensures z in A + B + [n]
        {
        }
        LinkedWiden(g, A + [n], A + B + [n], smallest, A[i]);
      } else {
        assert (A + B)[i] == B[i - |A|];
        LinkedThroughN(g, A, B, n, smallest, chosen, awh, B[i - |A|]);
      }
    }
  }

  /** A member x of the merged group B reaches `smallest` along smallest ~ chosen - n - awh ~ x. */
  lemma {:induction false} LinkedThroughN(g: Graph, A: seq<NodeId>, B: seq<NodeId>, n: NodeId, smallest: NodeId, chosen: NodeId, awh: NodeId, x: NodeId)
    requires Linked(g, A + [n], smallest, chosen) && chosen in A && Consumes(g, n, chosen)
    requires |B| > 0 && Rooted(g, B) && Linked(g, B, B[0], awh) && awh in B && Consumes(g, n, awh) && x in B
    ensures Linked(g, A + B + [n], smallest, x)
  {
    var T := A + B + [n];
    forall z | z in A + [n]
      ensures z in T
    {
    }
    RootedMember(g, B, x);
    LinkedWiden(g, A + [n], T, smallest, chosen);
    LinkedEdge(g, T, chosen, n);
    LinkedEdge(g, T, n, awh);
    LinkedSym(g, B, B[0], awh);
    LinkedTrans(g, B, awh, B[0], x);
    LinkedWiden(g, B, T, awh, x);
    LinkedTrans(g, T, smallest, chosen, n);
    LinkedTrans(g, T, smallest, n, awh);
    LinkedTrans(g, T, smallest, awh, x);
  }

  /** Before any merge, the group of `smallest` is rooted on its own. */
  lemma {:induction false} MergingRootedStart(g: Graph, st: Groups, smallest: NodeId, n: NodeId)
    requires HeadFirst(st) && smallest in st.graphs && AllRooted(g, st.graphs)
    ensures MergingRooted(g, st, st, smallest, n)
  {
    var A := st.graphs[smallest];
    forall i | 0 <= i < |A|
      ensures Linked(g, A + [n], smallest, A[i])
    {
      LinkedWiden(g, A, A + [n], smallest, A[i]);
    }
  }

  /** The merge loop keeps MergingRooted: each merged group holds an argument of n. */
  lemma {:induction false} MergeArgGroupsRooted(g: Graph, st: Groups, awhs: seq<NodeId>, chosen: NodeId, smallest: NodeId, n: NodeId)
    requires Valid(st) && smallest in st.graphs && AllRooted(g, st.graphs)
    requires forall k :: 0 <= k < |awhs| ==> awhs[k] in st.heads && Consumes(g, n, awhs[k])
    requires chosen in st.heads && st.heads[chosen] == smallest && Consumes(g, n, chosen)
    ensures MergingRooted(g, st, MergeArgGroups(st, awhs, chosen, smallest), smallest, n)
    decreases |awhs|
  {
    if awhs == [] {
      MergingRootedStart(g, st, smallest, n);
    } else {
      var init := awhs[..|awhs| - 1];
      MergeArgGroupsRooted(g, st, init, chosen, smallest, n);
      var prev := MergeArgGroups(st, init, chosen, smallest);
      var awh := awhs[|awhs| - 1];
      if awh != chosen && prev.heads[awh] != smallest {
        MergeArgGroupsPreservesValid(st, init, chosen, smallest);
        MergeArgGroupsJoins(st, init, chosen, smallest, chosen);
        MergeKeepsMergingRooted(g, st, prev, awh, chosen, smallest, n);
      }
    }
  }

  /** The merged group followed by n is rooted at `smallest`, since n consumes the chosen argument. */
  lemma {:induction false} JoinKeepsRooted(g: Graph, st: Groups, merged: Groups, chosen: NodeId, smallest: NodeId, n: NodeId)
    requires Valid(merged) && smallest in merged.graphs && MergingRooted(g, st, merged, smallest, n)
    requires AllRooted(g, st.graphs)
    requires chosen in merged.heads && merged.heads[chosen] == smallest && Consumes(g, n, chosen)
    ensures AllRooted(g, merged.graphs[smallest := merged.graphs[smallest] + [n]])
  {
    var G := merged.graphs[smallest] + [n];
    MemberIffHeaded(merged, smallest, chosen);
    forall i | 0 <= i < |G|
      ensures Linked(g, G, G[0], G[i])
    {
      if i == |G| - 1 {
        var k :| 0 <= k < |merged.graphs[smallest]| && merged.graphs[smallest][k] == chosen;
        LinkedEdge(g, G, chosen, n);
        LinkedTrans(g, G, smallest, chosen, n);
      }
    }
  }

  /** One node of the walk keeps every group connected. */
  lemma {:induction false} StepKeepsRooted(g: Graph, addr: NodeId -> nat, st: Groups, n: NodeId)
    requires n < |g| && Valid(st) && n !in st.heads && AllRooted(g, st.graphs)
    ensures AllRooted(g, Step(g, addr, st, n).graphs)
  {
    if IsFusable(g, n) {
      var args := g[n].args;
      var chosen := SmallestHeadArg(st.heads, addr, args);
      if chosen.None? {
        StartGroupKeepsValid(st, n);
        LinkedRefl(g, [n], n);
      } else {
        var smallest := st.heads[chosen.value];
        var awhs := ArgsWithHeads(st.heads, args);
        ArgsWithHeadsExact(st.heads, args);
        forall k | 0 <= k < |awhs|
          ensures awhs[k] in st.heads && Consumes(g, n, awhs[k])
        {
          assert awhs[k] in awhs;
        }
        MergeArgGroupsRooted(g, st, awhs, chosen.value, smallest, n);
        MergeArgGroupsPreservesValid(st, awhs, chosen.value, smallest);
        MergeArgGroupsJoins(st, awhs, chosen.value, smallest, chosen.value);
        JoinKeepsRooted(g, st, MergeArgGroups(st, awhs, chosen.value, smallest), chosen.value, smallest, n);
      }
    }
  }

  /** After the walk, every group is joined through argument edges between its own members. */
  lemma {:induction false} RunConnected(g: Graph, addr: NodeId -> nat, order: seq<NodeId>)
    requires ValidOrder(g, order)
    ensures AllRooted(g, Run(g, addr, order).graphs)
    ensures forall h :: h in Run(g, addr, order).graphs ==> Connected(g, Run(g, addr, order).graphs[h])
    decreases |order|
  {
    var r := Run(g, addr, order);
    if order != [] {
      var init := order[..|order| - 1];
      ValidOrderLast(g, order);
      RunValid(g, addr, init);
      RunConnected(g, addr, init);
      StepKeepsRooted(g, addr, Run(g, addr, init), order[|order| - 1]);
    }
    forall h | h in r.graphs
      ensures Connected(g, r.graphs[h])
    {
      RootedConnected(g, r.graphs[h]);
    }
  }

  // ---------------------------------------------------------------------------
  // What the partition promises
  // ---------------------------------------------------------------------------

  /** Under the invariant, the groups cover exactly the grouped nodes. */
  lemma {:induction false} ValidCovers(st: Groups)
    requires MembersHeaded(st) && HeadedAreMembers(st)
    ensures forall x :: x in st.heads <==> exists h :: h in st.graphs && x in st.graphs[h]
  {
    forall x | x in st.heads
      ensures exists h :: h in st.graphs && x in st.graphs[h]
    {
      assert st.heads[x] in st.graphs && x in st.graphs[st.heads[x]];
    }
    forall x | exists h :: h in st.graphs && x in st.graphs[h]
      ensures x in st.heads
    {
      var h :| h in st.graphs && x in st.graphs[h];
      MemberIffHeaded(st, h, x);
    }
  }

  /** Under the invariant, a node is listed once, in one group only. */
  lemma {:induction false} ValidDisjoint(st: Groups)
    requires MembersHeaded(st) && NoDuplicates(st)
    ensures forall h1, h2, i, j ::
      (h1 in st.graphs && h2 in st.graphs && 0 <= i < |st.graphs[h1]| && 0 <= j < |st.graphs[h2]| &&
       st.graphs[h1][i] == st.graphs[h2][j]) ==> h1 == h2 && i == j
  {
    forall h1, h2, i, j |
        h1 in st.graphs && h2 in st.graphs && 0 <= i < |st.graphs[h1]| && 0 <= j < |st.graphs[h2]| &&
        st.graphs[h1][i] == st.graphs[h2][j]
      ensures h1 == h2 && i == j
    {
      assert st.heads[st.graphs[h1][i]] == h1;
    }
  }

  /**
    Before pruning, the groups partition the visited fusable nodes: each visited fusable
    node lies in exactly one group, exactly once, that group is keyed by its head, and the
    head is listed first.
  */
  lemma {:induction false} RunPartitions(g: Graph, addr: NodeId -> nat, order: seq<NodeId>)
    requires ValidOrder(g, order)
    ensures var r := Run(g, addr, order);
      && (forall x :: x in FusableIn(g, order) <==> exists h :: h in r.graphs && x in r.graphs[h])
      && (forall h1, h2, i, j ::
            (h1 in r.graphs && h2 in r.graphs && 0 <= i < |r.graphs[h1]| && 0 <= j < |r.graphs[h2]| &&
             r.graphs[h1][i] == r.graphs[h2][j]) ==> h1 == h2 && i == j)
      && (forall h :: h in r.graphs ==> |r.graphs[h]| > 0 && r.graphs[h][0] == h)
  {
    RunValid(g, addr, order);
    ValidCovers(Run(g, addr, order));
    ValidDisjoint(Run(g, addr, order));
  }

  /** The invariant carried over to the pruned groups. */
  lemma {:induction false} PrunedSound(st: Groups, minNodesToFuse: nat)
    requires Valid(st)
    ensures var p := Prune(st.graphs, minNodesToFuse);
      && (forall h :: h in p ==> |p[h]| >= minNodesToFuse && |p[h]| > 0 && p[h][0] == h)
      && (forall h, i :: h in p && 0 <= i < |p[h]| ==> p[h][i] in st.heads)
      && (forall h1, h2, i, j ::
            (h1 in p && h2 in p && 0 <= i < |p[h1]| && 0 <= j < |p[h2]| &&
             p[h1][i] == p[h2][j]) ==> h1 == h2 && i == j)
  {
    var p := Prune(st.graphs, minNodesToFuse);
    forall h, i | h in p && 0 <= i < |p[h]|
      ensures p[h][i] in st.heads
    {
      assert p[h][i] == st.graphs[h][i];
    }
    ValidDisjoint(st);
    forall h1, h2, i, j | h1 in p && h2 in p && 0 <= i < |p[h1]| && 0 <= j < |p[h2]| && p[h1][i] == p[h2][j]
      ensures h1 == h2 && i == j
    {
      assert st.graphs[h1][i] == st.graphs[h2][j];
    }
  }

  /** Pruning drops whole groups, so the ones kept stay in order. */
  lemma {:induction false} PrunedOrdered(g: Graph, graphs: map<NodeId, seq<NodeId>>, minNodesToFuse: nat)
    requires Ordered(g, graphs)
    ensures Ordered(g, Prune(graphs, minNodesToFuse))
  {
    var p := Prune(graphs, minNodesToFuse);
    forall h, i, j | h in p && 0 <= i < j < |p[h]|
      ensures !Consumes(g, p[h][i], p[h][j])
    {
      assert p[h] == graphs[h];
    }
  }

  /**
    The reported groups: each has at least the minimum size, is keyed by its first
    member, lists distinct visited fusable nodes, shares no node with another group, is
    connected through argument edges between its own members (so two nodes with no chain
    of fusable argument edges between them never share a group), and over a topological
    order lists producers before their consumers.
  */
  lemma {:induction false} PartitionSound(g: Graph, addr: NodeId -> nat, order: seq<NodeId>, minNodesToFuse: nat)
    requires ValidOrder(g, order)
    ensures var p := FusedGroups(g, addr, order, minNodesToFuse);
      && (forall h :: h in p ==> |p[h]| >= minNodesToFuse && |p[h]| > 0 && p[h][0] == h)
      && (forall h, i :: h in p && 0 <= i < |p[h]| ==> p[h][i] in FusableIn(g, order))
      && (forall h1, h2, i, j ::
            (h1 in p && h2 in p && 0 <= i < |p[h1]| && 0 <= j < |p[h2]| &&
             p[h1][i] == p[h2][j]) ==> h1 == h2 && i == j)
      && (forall h :: h in p ==> Connected(g, p[h]))
      && (IsTopological(g, order) ==> Ordered(g, p))
  {
    RunValid(g, addr, order);
    PrunedSound(Run(g, addr, order), minNodesToFuse);
    RunConnected(g, addr, order);
    if IsTopological(g, order) {
      RunOrdered(g, addr, order);
      PrunedOrdered(g, Run(g, addr, order).graphs, minNodesToFuse);
    }
  }

  /**
    Groups are never split by pruning: over a topological order, a fusable node and a
    fusable argument of it are either in the same reported group or both dropped.
  */
  lemma {:induction false} PartitionKeepsEdgesTogether(g: Graph, addr: NodeId -> nat, order: seq<NodeId>, minNodesToFuse: nat, x: NodeId, a: NodeId)
    requires IsTopological(g, order)
    requires x in FusableIn(g, order) && a in FusableIn(g, order) && Consumes(g, x, a)
    ensures var p := FusedGroups(g, addr, order, minNodesToFuse);
      (exists h :: h in p && x in p[h] && a in p[h]) ||
      (forall h :: h in p ==> x !in p[h] && a !in p[h])
  {
    RunOrdered(g, addr, order);
    RunValid(g, addr, order);
    EdgeTogether(Run(g, addr, order), g, minNodesToFuse, x, a);
  }

  lemma {:induction false} EdgeTogether(st: Groups, g: Graph, minNodesToFuse: nat, x: NodeId, a: NodeId)
    requires MembersHeaded(st) && HeadedAreMembers(st) && Closed(g, st)
    requires x in st.heads && a in st.heads && Consumes(g, x, a)
    ensures var p := Prune(st.graphs, minNodesToFuse);
      (exists h :: h in p && x in p[h] && a in p[h]) ||
      (forall h :: h in p ==> x !in p[h] && a !in p[h])
  {
    var p := Prune(st.graphs, minNodesToFuse);
    var h := st.heads[x];
    MemberIffHeaded(st, h, x);
    MemberIffHeaded(st, h, a);
    forall h' | h' in p
      ensures (x in p[h'] || a in p[h']) ==> h' == h
    {
      MemberIffHeaded(st, h', x);
      MemberIffHeaded(st, h', a);
    }
  }
}
