/**
  The constructor loop of LoopKernelCollector exactly as test/cpu_fusion.cpp:1929-1939
  writes it: every grouped argument other than the chosen one triggers
  merge(m_heads.at(awh), smallest_head), even when that argument is already in the
  group of smallest_head. merge(h, h) appends the group to itself and then erases it,
  and the following m_graphs.at(smallest_head) throws std::out_of_range. The model of
  Partition guards the call instead; this module exhibits the difference.
*/
module CollectorAsWritten {
  import opened Wrappers
  import opened Graph
  import opened Partition

  /** m_heads.at(x) / m_graphs.at(h). */
  function At<V>(m: map<NodeId, V>, k: NodeId): (r: Result<V, Error>)
    ensures r.Success? <==> k in m
    ensures r.Success? ==> r.value == m[k]
  {
    if k in m then Success(m[k]) else Failure(OutOfRange)
  }

  /**
    merge(src, dst) as written (test/cpu_fusion.cpp:1970-1985): both groups are looked up,
    src's members are appended to dst's group, each member is re-headed to dst through
    m_heads.at, and the key src is erased, which for src == dst erases the merged group.
  */
  function MergeAsWritten(st: Groups, src: NodeId, dst: NodeId): (r: Result<Groups, Error>)
  {
    if dst !in st.graphs || src !in st.graphs then Failure(OutOfRange)
    else
      var members := st.graphs[src];
      if exists i :: 0 <= i < |members| && members[i] !in st.heads then Failure(OutOfRange)
      else
        Success(Groups(map x | x in st.heads :: if x in members then dst else st.heads[x],
                       st.graphs[dst := st.graphs[dst] + members] - {src}))
  }

  /** On two distinct groups that are ready for merging, the code as written does what MergeGroups states. */
  lemma {:induction false} MergeAsWrittenAgrees(st: Groups, src: NodeId, dst: NodeId)
    requires MergeReady(st, src) && dst in st.graphs && src != dst
    ensures MergeAsWritten(st, src, dst) == Success(MergeGroups(st, src, dst))
  {
    var members := st.graphs[src];
    forall i | 0 <= i < |members|
      ensures members[i] in st.heads
    {
    }
    var r := MergeAsWritten(st, src, dst).value;
    assert r.heads == MergeGroups(st, src, dst).heads;
  }

  /** merge(h, h) removes the group keyed h. */
  lemma {:induction false} SelfMergeDropsGroup(st: Groups, h: NodeId)
    requires MergeReady(st, h)
    ensures MergeAsWritten(st, h, h).Success?
    ensures h !in MergeAsWritten(st, h, h).value.graphs
  {
    var members := st.graphs[h];
    forall i | 0 <= i < |members|
      ensures members[i] in st.heads
    {
    }
  }

  /** The merge loop as written: no check that the argument's head differs from smallest. */
  function MergeArgGroupsAsWritten(st: Groups, awhs: seq<NodeId>, chosen: NodeId, smallest: NodeId): Result<Groups, Error>
    decreases |awhs|
  {
    if awhs == [] then Success(st)
    else
      var prev :- MergeArgGroupsAsWritten(st, awhs[..|awhs| - 1], chosen, smallest);
      var awh := awhs[|awhs| - 1];
      if awh != chosen then
        var src :- At(prev.heads, awh);
        MergeAsWritten(prev, src, smallest)
      else Success(prev)
  }

  /** One node of the constructor's loop as written. */
  function StepAsWritten(g: Graph, addr: NodeId -> nat, st: Groups, n: NodeId): Result<Groups, Error>
    requires n < |g|
  {
    if !IsFusable(g, n) then Success(st)
    else
      var chosen := SmallestHeadArg(st.heads, addr, g[n].args);
      if chosen.None? then Success(StartGroup(st, n))
      else
        var smallest :- At(st.heads, chosen.value);
        var merged :- MergeArgGroupsAsWritten(st, ArgsWithHeads(st.heads, g[n].args), chosen.value, smallest);
        AppendAsWritten(merged, n, smallest)
  }

  /** m_graphs.at(smallest_head).push_back(n); m_heads.insert({n, smallest_head}). */
  function AppendAsWritten(st: Groups, n: NodeId, h: NodeId): Result<Groups, Error> {
    var grp :- At(st.graphs, h);
    Success(Groups(Insert(st.heads, n, h), st.graphs[h := grp + [n]]))
  }

  /** The constructor's walk as written; the first exception ends it. */
  function RunAsWritten(g: Graph, addr: NodeId -> nat, order: seq<NodeId>): Result<Groups, Error>
    requires InArena(g, order)
    decreases |order|
  {
    if order == [] then Success(Empty)
    else
      var prev :- RunAsWritten(g, addr, order[..|order| - 1]);
      StepAsWritten(g, addr, prev, order[|order| - 1])
  }

  // ---------------------------------------------------------------------------
  // Exactly when the loop as written goes wrong
  // ---------------------------------------------------------------------------

  /**
    The groups the merge loop has folded into `smallest` by a given turn: its own, and the
    starting group of each grouped argument visited so far.
  */
  ghost predicate Absorbed(st: Groups, awhs: seq<NodeId>, smallest: NodeId, h: NodeId)
    requires forall k :: 0 <= k < |awhs| ==> awhs[k] in st.heads
  {
    h == smallest || exists j :: 0 <= j < |awhs| && st.heads[awhs[j]] == h
  }

  /** After the (guarded) merge loop, a node is headed by `smallest` iff its starting group was absorbed. */
  lemma {:induction false} MergeArgGroupsHeads(st: Groups, awhs: seq<NodeId>, chosen: NodeId, smallest: NodeId, x: NodeId)
    requires HeadsAreKeys(st) && smallest in st.graphs
    requires forall k :: 0 <= k < |awhs| ==> awhs[k] in st.heads
    requires chosen in st.heads && st.heads[chosen] == smallest && x in st.heads
    ensures MergeArgGroups(st, awhs, chosen, smallest).heads[x] ==
      if Absorbed(st, awhs, smallest, st.heads[x]) then smallest else st.heads[x]
    decreases |awhs|
  {
    if awhs != [] {
      var init := awhs[..|awhs| - 1];
      var awh := awhs[|awhs| - 1];
      MergeArgGroupsHeads(st, init, chosen, smallest, x);
      MergeArgGroupsHeads(st, init, chosen, smallest, awh);
      if Absorbed(st, init, smallest, st.heads[x]) && st.heads[x] != smallest {
        var j :| 0 <= j < |init| && st.heads[init[j]] == st.heads[x];
        assert awhs[j] == init[j];
      }
      if Absorbed(st, init, smallest, st.heads[awh]) && st.heads[awh] == st.heads[x] {
        assert Absorbed(st, init, smallest, st.heads[x]);
      }
      if Absorbed(st, awhs, smallest, st.heads[x]) && st.heads[x] != smallest && st.heads[awh] != st.heads[x] {
        var j :| 0 <= j < |awhs| && st.heads[awhs[j]] == st.heads[x];
        assert init[j] == awhs[j];
      }
    }
  }

  /**
    No grouped argument other than the chosen one is already headed by `smallest` when its
    turn comes: its group is neither the chosen group nor the group of a grouped argument
    before it. This is what the loop as written silently relies on.
  */
  ghost predicate NoSelfMerge(st: Groups, awhs: seq<NodeId>, chosen: NodeId, smallest: NodeId)
    requires forall k :: 0 <= k < |awhs| ==> awhs[k] in st.heads
  {
    forall k :: 0 <= k < |awhs| && awhs[k] != chosen ==>
      st.heads[awhs[k]] != smallest && forall j :: 0 <= j < k ==> st.heads[awhs[j]] != st.heads[awhs[k]]
  }

  /** The turn for awhs[k] calls merge(smallest, smallest) exactly when NoSelfMerge fails at k. */
  lemma {:induction false} SelfMergeAt(st: Groups, awhs: seq<NodeId>, chosen: NodeId, smallest: NodeId, k: nat)
    requires HeadsAreKeys(st) && smallest in st.graphs
    requires forall i :: 0 <= i < |awhs| ==> awhs[i] in st.heads
    requires chosen in st.heads && st.heads[chosen] == smallest && k < |awhs|
    ensures MergeArgGroups(st, awhs[..k], chosen, smallest).heads[awhs[k]] == smallest <==>
      (st.heads[awhs[k]] == smallest || exists j :: 0 <= j < k && st.heads[awhs[j]] == st.heads[awhs[k]])
  {
    MergeArgGroupsHeads(st, awhs[..k], chosen, smallest, awhs[k]);
    if exists j :: 0 <= j < k && st.heads[awhs[j]] == st.heads[awhs[k]] {
      var j :| 0 <= j < k && st.heads[awhs[j]] == st.heads[awhs[k]];
      assert awhs[..k][j] == awhs[j];
    }
    if Absorbed(st, awhs[..k], smallest, st.heads[awhs[k]]) && st.heads[awhs[k]] != smallest {
      var j :| 0 <= j < k && st.heads[awhs[..k][j]] == st.heads[awhs[k]];
      assert awhs[..k][j] == awhs[j];
    }
  }

  /** NoSelfMerge over one more grouped argument. */
  lemma {:induction false} NoSelfMergeNext(st: Groups, awhs: seq<NodeId>, chosen: NodeId, smallest: NodeId)
    requires awhs != [] && forall k :: 0 <= k < |awhs| ==> awhs[k] in st.heads
    ensures var last := |awhs| - 1;
      NoSelfMerge(st, awhs, chosen, smallest) <==>
        && NoSelfMerge(st, awhs[..last], chosen, smallest)
        && (awhs[last] != chosen ==>
              st.heads[awhs[last]] != smallest && forall j :: 0 <= j < last ==> st.heads[awhs[j]] != st.heads[awhs[last]])
  {
    var last := |awhs| - 1;
    var init := awhs[..last];
    if NoSelfMerge(st, awhs, chosen, smallest) {
      forall k | 0 <= k < |init| && init[k] != chosen
        ensures st.heads[init[k]] != smallest && forall j :: 0 <= j < k ==> st.heads[init[j]] != st.heads[init[k]]
      {
        assert init[k] == awhs[k];
        forall j | 0 <= j < k
          ensures st.heads[init[j]] != st.heads[init[k]]
        {
          assert init[j] == awhs[j];
        }
      }
    }
    if NoSelfMerge(st, init, chosen, smallest) &&
       (awhs[last] != chosen ==>
          st.heads[awhs[last]] != smallest && forall j :: 0 <= j < last ==> st.heads[awhs[j]] != st.heads[awhs[last]]) {
      forall k | 0 <= k < last && awhs[k] != chosen
        ensures st.heads[awhs[k]] != smallest && forall j :: 0 <= j < k ==> st.heads[awhs[j]] != st.heads[awhs[k]]
      {
        assert init[k] == awhs[k];
        forall j | 0 <= j < k
          ensures st.heads[awhs[j]] != st.heads[awhs[k]]
        {
          assert init[j] == awhs[j];
        }
      }
    }
  }

  /**
    The merge loop as written equals the guarded one when no turn would merge a group
    into itself; when one would, it has erased the group of `smallest` or thrown.
  */
  lemma {:induction false} MergeArgGroupsAsWrittenExact(st: Groups, awhs: seq<NodeId>, chosen: NodeId, smallest: NodeId)
    requires Valid(st) && smallest in st.graphs
    requires forall k :: 0 <= k < |awhs| ==> awhs[k] in st.heads
    requires chosen in st.heads && st.heads[chosen] == smallest
    ensures NoSelfMerge(st, awhs, chosen, smallest) ==>
      MergeArgGroupsAsWritten(st, awhs, chosen, smallest) == Success(MergeArgGroups(st, awhs, chosen, smallest))
    ensures !NoSelfMerge(st, awhs, chosen, smallest) ==>
      MergeArgGroupsAsWritten(st, awhs, chosen, smallest).Failure? ||
      smallest !in MergeArgGroupsAsWritten(st, awhs, chosen, smallest).value.graphs
    decreases |awhs|
  {
    if awhs != [] {
      var last := |awhs| - 1;
      MergeArgGroupsAsWrittenExact(st, awhs[..last], chosen, smallest);
      NoSelfMergeNext(st, awhs, chosen, smallest);
      if NoSelfMerge(st, awhs[..last], chosen, smallest) && awhs[last] != chosen {
        SelfMergeAt(st, awhs, chosen, smallest, last);
        MergeArgGroupsPreservesValid(st, awhs[..last], chosen, smallest);
        LastTurn(st, awhs, chosen, smallest);
      }
    }
  }

  /** The last turn of the loop once the earlier turns agreed with the guarded loop. */
  lemma {:induction false} LastTurn(st: Groups, awhs: seq<NodeId>, chosen: NodeId, smallest: NodeId)
    requires HeadsAreKeys(st) && smallest in st.graphs && awhs != []
    requires forall k :: 0 <= k < |awhs| ==> awhs[k] in st.heads
    requires awhs[|awhs| - 1] != chosen
    requires var init := awhs[..|awhs| - 1];
      && Valid(MergeArgGroups(st, init, chosen, smallest))
      && MergeArgGroupsAsWritten(st, init, chosen, smallest) == Success(MergeArgGroups(st, init, chosen, smallest))
    ensures var prev := MergeArgGroups(st, awhs[..|awhs| - 1], chosen, smallest);
      var written := MergeArgGroupsAsWritten(st, awhs, chosen, smallest);
      if prev.heads[awhs[|awhs| - 1]] != smallest then written == Success(MergeArgGroups(st, awhs, chosen, smallest))
      else written.Success? && smallest !in written.value.graphs
  {
    var init := awhs[..|awhs| - 1];
    var prev := MergeArgGroups(st, init, chosen, smallest);
    var src := prev.heads[awhs[|awhs| - 1]];
    LastTurnUnfolds(st, awhs, chosen, smallest);
    MergeOrSelfMerge(prev, src, smallest);
  }

  /** One call merge(src, dst) of the loop as written on a partition state. */
  lemma {:induction false} MergeOrSelfMerge(st: Groups, src: NodeId, dst: NodeId)
    requires Valid(st) && src in st.graphs && dst in st.graphs
    ensures src != dst ==> MergeAsWritten(st, src, dst) == Success(MergeGroups(st, src, dst))
    ensures src == dst ==> MergeAsWritten(st, src, dst).Success? && dst !in MergeAsWritten(st, src, dst).value.graphs
  {
    ValidMergeReady(st, src);
    if src != dst {
      MergeAsWrittenAgrees(st, src, dst);
    } else {
      SelfMergeDropsGroup(st, dst);
    }
  }

  /** Both loops at their last turn, for an argument other than the chosen one. */
  lemma {:induction false} LastTurnUnfolds(st: Groups, awhs: seq<NodeId>, chosen: NodeId, smallest: NodeId)
    requires HeadsAreKeys(st) && smallest in st.graphs && awhs != []
    requires forall k :: 0 <= k < |awhs| ==> awhs[k] in st.heads
    requires awhs[|awhs| - 1] != chosen
    requires var init := awhs[..|awhs| - 1];
      MergeArgGroupsAsWritten(st, init, chosen, smallest) == Success(MergeArgGroups(st, init, chosen, smallest))
    ensures var prev := MergeArgGroups(st, awhs[..|awhs| - 1], chosen, smallest);
      var src := prev.heads[awhs[|awhs| - 1]];
      && MergeArgGroupsAsWritten(st, awhs, chosen, smallest) == MergeAsWritten(prev, src, smallest)
      && (src != smallest ==> MergeArgGroups(st, awhs, chosen, smallest) == MergeGroups(prev, src, smallest))
      && (src == smallest ==> MergeArgGroups(st, awhs, chosen, smallest) == prev)
  {
    var prev := MergeArgGroups(st, awhs[..|awhs| - 1], chosen, smallest);
    assert At(prev.heads, awhs[|awhs| - 1]) == Success(prev.heads[awhs[|awhs| - 1]]);
  }

  /** What NoSelfMerge asks of one node of the walk; nodes that merge nothing always meet it. */
  ghost predicate StepNoSelfMerge(g: Graph, addr: NodeId -> nat, st: Groups, n: NodeId)
    requires n < |g| && HeadsAreKeys(st)
  {
    var chosen := SmallestHeadArg(st.heads, addr, g[n].args);
    !IsFusable(g, n) || chosen.None? ||
    NoSelfMerge(st, ArgsWithHeads(st.heads, g[n].args), chosen.value, st.heads[chosen.value])
  }

  /** One node of the loop as written: the guarded step when no self-merge arises, out_of_range otherwise. */
  lemma {:induction false} StepAsWrittenExact(g: Graph, addr: NodeId -> nat, st: Groups, n: NodeId)
    requires n < |g| && Valid(st)
    ensures StepAsWritten(g, addr, st, n) ==
      if StepNoSelfMerge(g, addr, st, n) then Success(Step(g, addr, st, n)) else Failure(OutOfRange)
  {
    var chosen := SmallestHeadArg(st.heads, addr, g[n].args);
    if IsFusable(g, n) && chosen.Some? {
      var smallest := st.heads[chosen.value];
      var awhs := ArgsWithHeads(st.heads, g[n].args);
      MergeArgGroupsAsWrittenExact(st, awhs, chosen.value, smallest);
      assert At(st.heads, chosen.value) == Success(smallest);
      var merged := MergeArgGroupsAsWritten(st, awhs, chosen.value, smallest);
      assert StepAsWritten(g, addr, st, n) == if merged.Failure? then Failure(merged.error) else AppendAsWritten(merged.value, n, smallest);
      if merged.Success? && smallest in merged.value.graphs {
        assert NoSelfMerge(st, awhs, chosen.value, smallest);
        assert merged.value == MergeArgGroups(st, awhs, chosen.value, smallest);
        assert AppendAsWritten(merged.value, n, smallest) == Success(JoinGroup(merged.value, n, smallest));
        assert Step(g, addr, st, n) == JoinGroup(merged.value, n, smallest);
        assert StepNoSelfMerge(g, addr, st, n);
      } else {
        assert !NoSelfMerge(st, awhs, chosen.value, smallest);
        assert merged.Failure? ==> merged.error == OutOfRange;
      }
    }
  }

  /** Every node of the walk over `order` meets StepNoSelfMerge in the state it is visited in. */
  ghost predicate RunNoSelfMerge(g: Graph, addr: NodeId -> nat, order: seq<NodeId>)
    requires ValidOrder(g, order)
    decreases |order|
  {
    order == [] ||
    (RunNoSelfMerge(g, addr, order[..|order| - 1]) &&
     StepNoSelfMerge(g, addr, Run(g, addr, order[..|order| - 1]), order[|order| - 1]))
  }

  /**
    The constructor's walk as written ends with the same groups as the guarded walk
    exactly when no node of it meets a self-merge, and throws out_of_range otherwise.
  */
  lemma {:induction false} RunAsWrittenExact(g: Graph, addr: NodeId -> nat, order: seq<NodeId>)
    requires ValidOrder(g, order)
    ensures RunAsWritten(g, addr, order) ==
      if RunNoSelfMerge(g, addr, order) then Success(Run(g, addr, order)) else Failure(OutOfRange)
    decreases |order|
  {
    if order != [] {
      var init := order[..|order| - 1];
      ValidOrderLast(g, order);
      RunAsWrittenExact(g, addr, init);
      if RunNoSelfMerge(g, addr, init) {
        RunValid(g, addr, init);
        StepAsWrittenExact(g, addr, Run(g, addr, init), order[|order| - 1]);
      }
    }
  }

  /** A node with at most one grouped argument, however often it is listed, merges nothing. */
  lemma {:induction false} OneGroupedArgNoSelfMerge(g: Graph, addr: NodeId -> nat, st: Groups, n: NodeId, a: NodeId)
    requires n < |g| && HeadsAreKeys(st)
    requires forall k :: 0 <= k < |g[n].args| && g[n].args[k] in st.heads ==> g[n].args[k] == a
    ensures StepNoSelfMerge(g, addr, st, n)
  {
    var args := g[n].args;
    var chosen := SmallestHeadArg(st.heads, addr, args);
    if chosen.Some? {
      var awhs := ArgsWithHeads(st.heads, args);
      ArgsWithHeadsExact(st.heads, args);
      forall k | 0 <= k < |awhs|
        ensures awhs[k] == chosen.value
      {
        assert awhs[k] in awhs;
      }
    }
  }

  /** A node whose two arguments are in different groups merges one group into the other, once. */
  lemma {:induction false} TwoGroupsNoSelfMerge(g: Graph, addr: NodeId -> nat, st: Groups, n: NodeId, p: NodeId, q: NodeId)
    requires n < |g| && HeadsAreKeys(st) && g[n].args == [p, q]
    requires p in st.heads && q in st.heads && st.heads[p] != st.heads[q]
    ensures StepNoSelfMerge(g, addr, st, n)
  {
    assert [p, q][..1] == [p];
    assert [p][..0] == [];
    assert SmallestHeadArg(st.heads, addr, [p]) == Some(p);
    assert ArgsWithHeads(st.heads, [p]) == [p];
    assert ArgsWithHeads(st.heads, [p, q]) == [p, q];
  }

  /**
    x = -a; y = abs(x); w = x + y, with a, x, y, w the nodes 0, 1, 2, 3. When w is visited,
    both of its arguments are in the group of x, so the loop as written calls merge(x, x).
  */
  ghost predicate SharedHeadShape(g: Graph) {
    && |g| == 4
    && g[0].kind == Parameter
    && g[1].kind == UnaryArithmetic(Negative) && g[1].args == [0]
    && g[2].kind == UnaryArithmetic(Abs) && g[2].args == [1]
    && g[3].kind == BinaryArithmetic(Add) && g[3].args == [1, 2]
  }

  /** One graph of that shape. */
  const SharedHead: Graph := [
    Node(Parameter, [], I32, []),
    Node(UnaryArithmetic(Negative), [0], I32, []),
    Node(UnaryArithmetic(Abs), [1], I32, []),
    Node(BinaryArithmetic(Add), [1, 2], I32, [])
  ]

  lemma {:induction false} SharedHeadHasShape()
    ensures SharedHeadShape(SharedHead)
  {
  }

  /** The group {x, y} that both arguments of w belong to. */
  const XY: Groups := Groups(map[1 := 1, 2 := 1], map[1 := [1, 2]])

  /** The group {x} that x starts. */
  const X: Groups := Groups(map[1 := 1], map[1 := [1]])

  /** a is a parameter and is skipped by both loops. */
  lemma {:induction false} StepA(g: Graph, addr: NodeId -> nat)
    requires |g| == 4 && g[0].kind == Parameter
    ensures Step(g, addr, Empty, 0) == Empty
    ensures StepAsWritten(g, addr, Empty, 0) == Success(Empty)
  {
  }

  /** x starts the group {x} in both loops. */
  lemma {:induction false} StepX(g: Graph, addr: NodeId -> nat)
    requires |g| == 4 && g[1].kind == UnaryArithmetic(Negative) && g[1].args == [0]
    ensures Step(g, addr, Empty, 1) == X
    ensures StepAsWritten(g, addr, Empty, 1) == Success(X)
  {
    assert SmallestHeadArg(map[], addr, [0]) == None;
    assert StartGroup(Empty, 1) == X;
  }

  lemma {:induction false} ArgsOfY(addr: NodeId -> nat)
    ensures SmallestHeadArg(X.heads, addr, [1]) == Some(1)
    ensures ArgsWithHeads(X.heads, [1]) == [1]
  {
    assert [1][..0] == [];
  }

  lemma {:induction false} StepYShape(g: Graph, addr: NodeId -> nat)
    requires |g| == 4 && g[2].kind == UnaryArithmetic(Abs) && g[2].args == [1]
    ensures Step(g, addr, X, 2) == JoinGroup(MergeArgGroups(X, [1], 1, 1), 2, 1)
  {
    ArgsOfY(addr);
  }

  /** y joins the group of x in the loop as written. */
  lemma {:induction false} StepYAsWritten(g: Graph, addr: NodeId -> nat)
    requires |g| == 4 && g[2].kind == UnaryArithmetic(Abs) && g[2].args == [1]
    ensures StepAsWritten(g, addr, X, 2) == Success(XY)
  {
    ArgsOfY(addr);
    MergeAtY();
    AppendY();
  }

  lemma {:induction false} AppendY()
    ensures AppendAsWritten(X, 2, 1) == Success(XY)
  {
    assert At(X.graphs, 1) == Success([1]);
    assert [1] + [2] == [1, 2];
    assert Insert(X.heads, 2, 1) == XY.heads;
    assert X.graphs[1 := [1, 2]] == XY.graphs;
  }

  lemma {:induction false} MergeAtY()
    ensures MergeArgGroups(X, [1], 1, 1) == X
    ensures MergeArgGroupsAsWritten(X, [1], 1, 1) == Success(X)
  {
    assert [1][..0] == [];
  }

  lemma {:induction false} JoinY()
    ensures JoinGroup(X, 2, 1) == XY
  {
    assert [1] + [2] == [1, 2];
  }

  /** y joins the group of x in the guarded loop. */
  lemma {:induction false} StepY(g: Graph, addr: NodeId -> nat)
    requires |g| == 4 && g[2].kind == UnaryArithmetic(Abs) && g[2].args == [1]
    ensures Step(g, addr, X, 2) == XY
  {
    StepYShape(g, addr);
    MergeAtY();
    JoinY();
  }

  /** Extending the order by one node is one more step of either loop. */
  lemma {:induction false} RunAppend(g: Graph, addr: NodeId -> nat, order: seq<NodeId>, n: NodeId)
    requires ValidOrder(g, order + [n])
    ensures ValidOrder(g, order)
    ensures Run(g, addr, order + [n]) == Step(g, addr, Run(g, addr, order), n)
    ensures RunAsWritten(g, addr, order + [n]) ==
      if RunAsWritten(g, addr, order).Failure? then RunAsWritten(g, addr, order)
      else StepAsWritten(g, addr, RunAsWritten(g, addr, order).value, n)
  {
    assert (order + [n])[..|order|] == order;
    assert forall i :: 0 <= i < |order| ==> order[i] == (order + [n])[i];
  }

  /** Both loops skip a and let x start the group {x}. */
  lemma {:induction false} SharedHeadToX(g: Graph, addr: NodeId -> nat)
    requires |g| == 4 && g[0].kind == Parameter && g[1].kind == UnaryArithmetic(Negative) && g[1].args == [0]
    ensures ValidOrder(g, [0, 1])
    ensures RunAsWritten(g, addr, [0, 1]) == Success(X)
    ensures Run(g, addr, [0, 1]) == X
  {
    assert [0] + [1] == [0, 1];
    RunAppend(g, addr, [0], 1);
    SharedHeadToA(g, addr);
    StepX(g, addr);
  }

  /** Both loops skip a. */
  lemma {:induction false} SharedHeadToA(g: Graph, addr: NodeId -> nat)
    requires |g| == 4 && g[0].kind == Parameter
    ensures ValidOrder(g, [0])
    ensures RunAsWritten(g, addr, [0]) == Success(Empty)
    ensures Run(g, addr, [0]) == Empty
  {
    assert ValidOrder(g, [0]);
    assert [0][..0] == [];
    StepA(g, addr);
  }

  /** Both loops agree up to y: x starts a group and y joins it. */
  lemma {:induction false} SharedHeadPrefix(g: Graph, addr: NodeId -> nat)
    requires SharedHeadShape(g)
    ensures ValidOrder(g, [0, 1, 2])
    ensures RunAsWritten(g, addr, [0, 1, 2]) == Success(XY)
    ensures Run(g, addr, [0, 1, 2]) == XY
  {
    assert [0, 1] + [2] == [0, 1, 2];
    RunAppend(g, addr, [0, 1], 2);
    SharedHeadToX(g, addr);
    StepY(g, addr);
    StepYAsWritten(g, addr);
  }

  lemma {:induction false} ArgsOfW(addr: NodeId -> nat)
    ensures SmallestHeadArg(XY.heads, addr, [1, 2]) == Some(1)
    ensures ArgsWithHeads(XY.heads, [1, 2]) == [1, 2]
  {
    assert [1, 2][..1] == [1];
    assert [1][..0] == [];
  }

  /** merge(x, x) leaves no group behind. */
  lemma {:induction false} MergeAtW()
    ensures MergeArgGroupsAsWritten(XY, [1, 2], 1, 1) == Success(Groups(XY.heads, map[]))
  {
    assert [1, 2][..1] == [1];
    assert [1][..0] == [];
    assert MergeArgGroupsAsWritten(XY, [1], 1, 1) == Success(XY);
    var r := MergeAsWritten(XY, 1, 1);
    assert r.Success?;
    assert r.value.heads == XY.heads;
  }

  lemma {:induction false} StepWShape(g: Graph, addr: NodeId -> nat)
    requires |g| == 4 && g[3].kind == BinaryArithmetic(Add) && g[3].args == [1, 2]
    ensures Step(g, addr, XY, 3) == JoinGroup(MergeArgGroups(XY, [1, 2], 1, 1), 3, 1)
  {
    ArgsOfW(addr);
  }

  /** The guarded loop skips y, which is already in the group of x. */
  lemma {:induction false} GuardedMergeAtW()
    ensures MergeArgGroups(XY, [1, 2], 1, 1) == XY
  {
    assert [1, 2][..1] == [1];
    assert [1][..0] == [];
  }

  lemma {:induction false} JoinW()
    ensures JoinGroup(XY, 3, 1).graphs == map[1 := [1, 2, 3]]
  {
    assert [1, 2] + [3] == [1, 2, 3];
  }

  /** At w the code as written merges the group of x into itself, erases it, and throws. */
  lemma {:induction false} SharedHeadThrows(g: Graph, addr: NodeId -> nat)
    requires SharedHeadShape(g)
    ensures ValidOrder(g, [0, 1, 2, 3])
    ensures RunAsWritten(g, addr, [0, 1, 2, 3]) == Failure(OutOfRange)
  {
    SharedHeadOrder(g);
    SharedHeadPrefix(g, addr);
    StepWAsWritten(g, addr);
    ThrowsAfter(g, addr, [0, 1, 2], 3, XY);
  }

  lemma {:induction false} SharedHeadOrder(g: Graph)
    requires |g| == 4
    ensures [0, 1, 2] + [3] == [0, 1, 2, 3]
    ensures InArena(g, [0, 1, 2]) && ValidOrder(g, [0, 1, 2, 3])
  {
  }

  /** A run whose prefix ends in `st`, where the last step throws, throws. */
  lemma {:induction false} ThrowsAfter(g: Graph, addr: NodeId -> nat, order: seq<NodeId>, n: NodeId, st: Groups)
    requires ValidOrder(g, order + [n]) && InArena(g, order) && n < |g|
    requires RunAsWritten(g, addr, order) == Success(st)
    requires StepAsWritten(g, addr, st, n) == Failure(OutOfRange)
    ensures RunAsWritten(g, addr, order + [n]) == Failure(OutOfRange)
  {
    RunAppend(g, addr, order, n);
  }

  lemma {:induction false} StepWAsWritten(g: Graph, addr: NodeId -> nat)
    requires |g| == 4 && g[3].kind == BinaryArithmetic(Add) && g[3].args == [1, 2]
    ensures StepAsWritten(g, addr, XY, 3) == Failure(OutOfRange)
  {
    ArgsOfW(addr);
    MergeAtW();
    assert AppendAsWritten(Groups(XY.heads, map[]), 3, 1) == Failure(OutOfRange);
  }

  lemma {:induction false} GuardedStepW(g: Graph, addr: NodeId -> nat)
    requires |g| == 4 && g[3].kind == BinaryArithmetic(Add) && g[3].args == [1, 2]
    ensures Step(g, addr, XY, 3).graphs == map[1 := [1, 2, 3]]
  {
    StepWShape(g, addr);
    GuardedMergeAtW();
    JoinW();
  }

  /** The guarded loop of Partition.Run puts x, y and w in one group. */
  lemma {:induction false} SharedHeadGuarded(g: Graph, addr: NodeId -> nat)
    requires SharedHeadShape(g)
    ensures ValidOrder(g, [0, 1, 2, 3])
    ensures Run(g, addr, [0, 1, 2, 3]).graphs == map[1 := [1, 2, 3]]
  {
    SharedHeadOrder(g);
    RunAppend(g, addr, [0, 1, 2], 3);
    SharedHeadPrefix(g, addr);
    GuardedStepW(g, addr);
  }
}
