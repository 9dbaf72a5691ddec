/**
  The graphs of the graph_partition4 and graph_partition5 tests (test/cpu_fusion.cpp:2027-2090),
  walked in the order the nodes are created, which is a topological order.

    a, b, c, d            parameters                      0, 1, 2, 7
    add_ab   = a + b                                      3
    add_abs  = abs(add_ab)                                4
    abs_neg  = -add_abs                                   5
    sub_c_neg = c - abs_neg                               6
    d_abs    = abs(d)                                     8
    goe_ab   = GetOutputElement(add_ab, 0)                9
    add_d    = d_abs + goe_ab                            10
    neg_d    = -add_d                                    11
    mul_cd   = neg_d * sub_c_neg                         12

  graph_partition5 returns neg_d and sub_c_neg, so its function holds nodes 0-11 only.
  The GetOutputElement node is not fusable, so add_d does not join the group of add_ab.
*/
module PartitionScenarios {
  import opened Wrappers
  import opened Graph
  import opened Partition
  import opened GraphPartition3
  import CollectorAsWritten

  /** The graph of graph_partition4, node by node; graph_partition5 uses its first twelve nodes. */
  ghost predicate Diamond(g: Graph) {
    && |g| == 13
    && g[0].kind == Parameter && g[0].args == []
    && g[1].kind == Parameter && g[1].args == []
    && g[2].kind == Parameter && g[2].args == []
    && g[3].kind == BinaryArithmetic(Add) && g[3].args == [0, 1]
    && g[4].kind == UnaryArithmetic(Abs) && g[4].args == [3]
    && g[5].kind == UnaryArithmetic(Negative) && g[5].args == [4]
    && g[6].kind == BinaryArithmetic(Subtract) && g[6].args == [2, 5]
    && g[7].kind == Parameter && g[7].args == []
    && g[8].kind == UnaryArithmetic(Abs) && g[8].args == [7]
    && g[9].kind == GetOutputElement(0) && g[9].args == [3]
    && g[10].kind == BinaryArithmetic(Add) && g[10].args == [8, 9]
    && g[11].kind == UnaryArithmetic(Negative) && g[11].args == [10]
    && g[12].kind == BinaryArithmetic(Multiply) && g[12].args == [11, 6]
  }

  /** The nodes 0, 1, ..., k - 1. */
  function Upto(k: nat): (r: seq<NodeId>)
    ensures |r| == k && forall i :: 0 <= i < k ==> r[i] == i
  {
    if k == 0 then [] else Upto(k - 1) + [k - 1]
  }

  /** Creation order is a topological order of the test graph. */
  lemma {:induction false} CreationOrderIsTopological(g: Graph)
    requires Diamond(g)
    ensures IsTopological(g, Upto(13))
  {
    var o := Upto(13);
    forall i, k | 0 <= i < |o| && 0 <= k < |g[o[i]].args|
      ensures g[o[i]].args[k] in o[..i]
    {
      var a := g[i].args[k];
      assert a < i;
      assert o[..i][a] == a;
    }
  }

  /** Walking one more node of the creation order is one more step of either loop. */
  lemma {:induction false} WalkNext(g: Graph, addr: NodeId -> nat, k: nat)
    requires k < |g|
    ensures ValidOrder(g, Upto(k)) && ValidOrder(g, Upto(k + 1))
    ensures Run(g, addr, Upto(k + 1)) == Step(g, addr, Run(g, addr, Upto(k)), k)
    ensures Run3(g, addr, Upto(k + 1)) == Step3(g, addr, Run3(g, addr, Upto(k)), k)
  {
    assert Upto(k + 1)[..k] == Upto(k);
  }

  /** A node that is not fusable leaves both loops' maps alone. */
  lemma {:induction false} SkipNode(g: Graph, addr: NodeId -> nat, st: Groups, n: NodeId)
    requires n < |g| && !IsFusable(g, n) && Reachable(st)
    ensures Step(g, addr, st, n) == st && Step3(g, addr, st, n) == st
  {
  }

  // The states both loops reach, node by node.

  const S3: Groups := Groups(map[3 := 3], map[3 := [3]])
  const S4: Groups := Groups(map[3 := 3, 4 := 3], map[3 := [3, 4]])
  const S5: Groups := Groups(map[3 := 3, 4 := 3, 5 := 3], map[3 := [3, 4, 5]])
  const S6: Groups := Groups(map[3 := 3, 4 := 3, 5 := 3, 6 := 3], map[3 := [3, 4, 5, 6]])
  const S8: Groups := Groups(map[3 := 3, 4 := 3, 5 := 3, 6 := 3, 8 := 8],
                             map[3 := [3, 4, 5, 6], 8 := [8]])
  const S10: Groups := Groups(map[3 := 3, 4 := 3, 5 := 3, 6 := 3, 8 := 8, 10 := 8],
                              map[3 := [3, 4, 5, 6], 8 := [8, 10]])
  const S11: Groups := Groups(map[3 := 3, 4 := 3, 5 := 3, 6 := 3, 8 := 8, 10 := 8, 11 := 8],
                              map[3 := [3, 4, 5, 6], 8 := [8, 10, 11]])

  /** Along the first chain each state is the one before it with one node started or appended. */
  lemma {:induction false} FirstChainGrows()
    ensures S3 == Groups(Empty.heads[3 := 3], Empty.graphs[3 := [3]])
    ensures JoinGroup(S3, 4, 3) == S4 && JoinGroup(S4, 5, 3) == S5 && JoinGroup(S5, 6, 3) == S6
  {
    assert [3] + [4] == [3, 4];
    assert [3, 4] + [5] == [3, 4, 5];
    assert [3, 4, 5] + [6] == [3, 4, 5, 6];
  }

  /** The same along the second chain. */
  lemma {:induction false} SecondChainGrows()
    ensures S8 == Groups(S6.heads[8 := 8], S6.graphs[8 := [8]])
    ensures JoinGroup(S8, 10, 8) == S10 && JoinGroup(S10, 11, 8) == S11
  {
    assert [8] + [10] == [8, 10];
    assert [8, 10] + [11] == [8, 10, 11];
  }

  // Each visit below needs only the kind and the arguments of the node it visits.

  lemma {:induction false} StepAtParameters(g: Graph, addr: NodeId -> nat)
    requires |g| == 13 && Reachable(Empty) && g[0].kind == Parameter && g[1].kind == Parameter && g[2].kind == Parameter
    ensures Step(g, addr, Empty, 0) == Empty && Step3(g, addr, Empty, 0) == Empty
    ensures Step(g, addr, Empty, 1) == Empty && Step3(g, addr, Empty, 1) == Empty
    ensures Step(g, addr, Empty, 2) == Empty && Step3(g, addr, Empty, 2) == Empty
  {
    SkipNode(g, addr, Empty, 0);
    SkipNode(g, addr, Empty, 1);
    SkipNode(g, addr, Empty, 2);
  }

  lemma {:induction false} StepAt3(g: Graph, addr: NodeId -> nat)
    requires |g| == 13 && Reachable(Empty) && g[3].kind == BinaryArithmetic(Add) && g[3].args == [0, 1]
    ensures Step(g, addr, Empty, 3) == S3 && Step3(g, addr, Empty, 3) == S3
  {
    FirstChainGrows();
    StepStartsGroup(g, addr, Empty, 3);
    Step3StartsGroup(g, addr, Empty, 3);
  }

  lemma {:induction false} StepAt4(g: Graph, addr: NodeId -> nat)
    requires |g| == 13 && Reachable(S3) && g[4].kind == UnaryArithmetic(Abs) && g[4].args == [3]
    ensures Step(g, addr, S3, 4) == S4 && Step3(g, addr, S3, 4) == S4
  {
    FirstChainGrows();
    StepJoinsArgGroup(g, addr, S3, 4, 3);
    Step3JoinsArgGroup(g, addr, S3, 4, 3);
  }

  lemma {:induction false} StepAt5(g: Graph, addr: NodeId -> nat)
    requires |g| == 13 && Reachable(S4) && g[5].kind == UnaryArithmetic(Negative) && g[5].args == [4]
    ensures Step(g, addr, S4, 5) == S5 && Step3(g, addr, S4, 5) == S5
  {
    FirstChainGrows();
    StepJoinsArgGroup(g, addr, S4, 5, 4);
    Step3JoinsArgGroup(g, addr, S4, 5, 4);
  }

  lemma {:induction false} StepAt6(g: Graph, addr: NodeId -> nat)
    requires |g| == 13 && Reachable(S5) && g[6].kind == BinaryArithmetic(Subtract) && g[6].args == [2, 5]
    ensures Step(g, addr, S5, 6) == S6 && Step3(g, addr, S5, 6) == S6
  {
    FirstChainGrows();
    StepJoinsArgGroup(g, addr, S5, 6, 5);
    Step3JoinsArgGroup(g, addr, S5, 6, 5);
  }

  lemma {:induction false} StepAt7(g: Graph, addr: NodeId -> nat)
    requires |g| == 13 && Reachable(S6) && g[7].kind == Parameter
    ensures Step(g, addr, S6, 7) == S6 && Step3(g, addr, S6, 7) == S6
  {
    SkipNode(g, addr, S6, 7);
  }

  lemma {:induction false} StepAt8(g: Graph, addr: NodeId -> nat)
    requires |g| == 13 && Reachable(S6) && g[8].kind == UnaryArithmetic(Abs) && g[8].args == [7]
    ensures Step(g, addr, S6, 8) == S8 && Step3(g, addr, S6, 8) == S8
  {
    SecondChainGrows();
    StepStartsGroup(g, addr, S6, 8);
    Step3StartsGroup(g, addr, S6, 8);
  }

  lemma {:induction false} StepAt9(g: Graph, addr: NodeId -> nat)
    requires |g| == 13 && Reachable(S8) && g[9].kind == GetOutputElement(0)
    ensures Step(g, addr, S8, 9) == S8 && Step3(g, addr, S8, 9) == S8
  {
    SkipNode(g, addr, S8, 9);
  }

  lemma {:induction false} StepAt10(g: Graph, addr: NodeId -> nat)
    requires |g| == 13 && Reachable(S8) && g[10].kind == BinaryArithmetic(Add) && g[10].args == [8, 9]
    ensures Step(g, addr, S8, 10) == S10 && Step3(g, addr, S8, 10) == S10
  {
    SecondChainGrows();
    StepJoinsArgGroup(g, addr, S8, 10, 8);
    Step3JoinsArgGroup(g, addr, S8, 10, 8);
  }

  lemma {:induction false} StepAt11(g: Graph, addr: NodeId -> nat)
    requires |g| == 13 && Reachable(S10) && g[11].kind == UnaryArithmetic(Negative) && g[11].args == [10]
    ensures Step(g, addr, S10, 11) == S11 && Step3(g, addr, S10, 11) == S11
  {
    SecondChainGrows();
    StepJoinsArgGroup(g, addr, S10, 11, 10);
    Step3JoinsArgGroup(g, addr, S10, 11, 10);
  }

  lemma {:induction false} WalkTo4(g: Graph, addr: NodeId -> nat)
    requires Diamond(g)
    ensures Run(g, addr, Upto(4)) == S3 && Run3(g, addr, Upto(4)) == S3
  {
    WalkNext(g, addr, 0);
    WalkNext(g, addr, 1);
    WalkNext(g, addr, 2);
    WalkNext(g, addr, 3);
    assert Upto(0) == [];
    StepAtParameters(g, addr);
    StepAt3(g, addr);
  }

  lemma {:induction false} WalkTo7(g: Graph, addr: NodeId -> nat)
    requires Diamond(g)
    ensures Run(g, addr, Upto(7)) == S6 && Run3(g, addr, Upto(7)) == S6
  {
    WalkTo4(g, addr);
    WalkNext(g, addr, 4);
    WalkNext(g, addr, 5);
    WalkNext(g, addr, 6);
    StepAt4(g, addr);
    StepAt5(g, addr);
    StepAt6(g, addr);
  }

  lemma {:induction false} WalkTo12(g: Graph, addr: NodeId -> nat)
    requires Diamond(g)
    ensures Run(g, addr, Upto(12)) == S11 && Run3(g, addr, Upto(12)) == S11
  {
    WalkTo7(g, addr);
    WalkNext(g, addr, 7);
    WalkNext(g, addr, 8);
    WalkNext(g, addr, 9);
    WalkNext(g, addr, 10);
    WalkNext(g, addr, 11);
    StepAt7(g, addr);
    StepAt8(g, addr);
    StepAt9(g, addr);
    StepAt10(g, addr);
    StepAt11(g, addr);
  }

  /**
    graph_partition5: with outputs neg_d and sub_c_neg there is no node joining the two
    chains, and both of their groups are large enough to be kept.
  */
  lemma {:induction false} GraphPartition5TwoGroups(g: Graph, addr: NodeId -> nat)
    requires Diamond(g)
    ensures ValidOrder(g, Upto(12))
    ensures FusedGroups(g, addr, Upto(12), 3) == map[3 := [3, 4, 5, 6], 8 := [8, 10, 11]]
    ensures |FusedGroups(g, addr, Upto(12), 3).Keys| == 2
  {
    ChainGroups(g, addr);
    PruneKeepsChains(g, addr);
  }

  /** The groups after the first twelve nodes. */
  lemma {:induction false} ChainGroups(g: Graph, addr: NodeId -> nat)
    requires Diamond(g)
    ensures ValidOrder(g, Upto(12))
    ensures Run(g, addr, Upto(12)).graphs == S11.graphs
  {
    WalkNext(g, addr, 11);
    WalkTo12(g, addr);
  }

  /** Both chains have at least three members. */
  lemma {:induction false} PruneKeepsChains(g: Graph, addr: NodeId -> nat)
    requires ValidOrder(g, Upto(12)) && Run(g, addr, Upto(12)).graphs == S11.graphs
    ensures FusedGroups(g, addr, Upto(12), 3) == map[3 := [3, 4, 5, 6], 8 := [8, 10, 11]]
    ensures |FusedGroups(g, addr, Upto(12), 3).Keys| == 2
  {
    ChainsSurvive();
  }

  lemma {:induction false} ChainsSurvive()
    ensures Prune(S11.graphs, 3) == map[3 := [3, 4, 5, 6], 8 := [8, 10, 11]]
    ensures |Prune(S11.graphs, 3).Keys| == 2
  {
    assert Prune(S11.graphs, 3).Keys == {3, 8};
  }

  // mul_cd joins the two chains: its arguments neg_d and sub_c_neg have the heads d_abs (8)
  // and add_ab (3), and the smaller of the two in address order keeps the merged group.

  /** The argument scan at a node with two grouped arguments. */
  lemma {:induction false} ScanTwoArgs(heads: map<NodeId, NodeId>, addr: NodeId -> nat, p: NodeId, q: NodeId)
    requires p in heads && q in heads
    ensures ArgsWithHeads(heads, [p, q]) == [p, q]
    ensures SmallestHeadArg(heads, addr, [p, q]) == if addr(heads[q]) < addr(heads[p]) then Some(q) else Some(p)
  {
    assert [p, q][..1] == [p];
    assert [p][..0] == [];
    assert SmallestHeadArg(heads, addr, [p]) == Some(p);
    assert ArgsWithHeads(heads, [p]) == [p];
    assert [p] + [q] == [p, q];
  }

  /** The merge loop over [p, q] when q is chosen: p's group moves into q's. */
  lemma {:induction false} MergePairIntoSecond(st: Groups, p: NodeId, q: NodeId)
    requires Reachable(st) && p in st.heads && q in st.heads && st.heads[p] != st.heads[q]
    ensures MergeArgGroups(st, [p, q], q, st.heads[q]) == MergeGroups(st, st.heads[p], st.heads[q])
    ensures MergeArgGroups3(st, [p, q], q, st.heads[q]) == Absorb(st, st.heads[p], st.heads[q])
  {
    assert [p, q][..1] == [p];
    assert [p][..0] == [];
    assert MergeArgGroups(st, [p], q, st.heads[q]) == MergeGroups(st, st.heads[p], st.heads[q]);
    assert MergeArgGroups3(st, [p], q, st.heads[q]) == Absorb(st, st.heads[p], st.heads[q]);
  }

  /** The merge loop over [p, q] when p is chosen: q's group moves into p's. */
  lemma {:induction false} MergePairIntoFirst(st: Groups, p: NodeId, q: NodeId)
    requires Reachable(st) && p in st.heads && q in st.heads && st.heads[p] != st.heads[q]
    ensures MergeArgGroups(st, [p, q], p, st.heads[p]) == MergeGroups(st, st.heads[q], st.heads[p])
    ensures MergeArgGroups3(st, [p, q], p, st.heads[p]) == Absorb(st, st.heads[q], st.heads[p])
  {
    assert [p, q][..1] == [p];
    assert [p][..0] == [];
    assert MergeArgGroups(st, [p], p, st.heads[p]) == st;
    assert MergeArgGroups3(st, [p], p, st.heads[p]) == st;
  }

  /**
    A node whose two arguments p and q lie in different groups: the group of the argument
    whose head is larger in address order is merged into the other, and the node joins.
  */
  lemma {:induction false} StepMergesTwoArgs(g: Graph, addr: NodeId -> nat, st: Groups, n: NodeId, p: NodeId, q: NodeId)
    requires n < |g| && Reachable(st) && IsFusable(g, n) && g[n].args == [p, q]
    requires p in st.heads && q in st.heads && st.heads[p] != st.heads[q]
    ensures var hp, hq := st.heads[p], st.heads[q];
      if addr(hq) < addr(hp) then Step(g, addr, st, n) == JoinGroup(MergeGroups(st, hp, hq), n, hq)
      else Step(g, addr, st, n) == JoinGroup(MergeGroups(st, hq, hp), n, hp)
  {
    ScanTwoArgs(st.heads, addr, p, q);
    if addr(st.heads[q]) < addr(st.heads[p]) {
      MergePairIntoSecond(st, p, q);
    } else {
      MergePairIntoFirst(st, p, q);
    }
  }

  /** graph_partition3's loop at the same node: the losing group is absorbed but kept. */
  lemma {:induction false} Step3MergesTwoArgs(g: Graph, addr: NodeId -> nat, st: Groups, n: NodeId, p: NodeId, q: NodeId)
    requires n < |g| && Reachable(st) && IsFusable(g, n) && g[n].args == [p, q]
    requires p in st.heads && q in st.heads && st.heads[p] != st.heads[q]
    ensures var hp, hq := st.heads[p], st.heads[q];
      if addr(hq) < addr(hp) then Step3(g, addr, st, n) == JoinGroup(Absorb(st, hp, hq), n, hq)
      else Step3(g, addr, st, n) == JoinGroup(Absorb(st, hq, hp), n, hp)
  {
    ScanTwoArgs(st.heads, addr, p, q);
    if addr(st.heads[q]) < addr(st.heads[p]) {
      MergePairIntoSecond(st, p, q);
    } else {
      MergePairIntoFirst(st, p, q);
    }
  }

  /** mul_cd's step in both loops, for either order of the two heads. */
  lemma {:induction false} StepAt12(g: Graph, addr: NodeId -> nat)
    requires |g| == 13 && Reachable(S11) && g[12].kind == BinaryArithmetic(Multiply) && g[12].args == [11, 6]
    ensures addr(3) < addr(8) ==> Step(g, addr, S11, 12) == JoinGroup(MergeGroups(S11, 8, 3), 12, 3)
    ensures addr(3) < addr(8) ==> Step3(g, addr, S11, 12) == JoinGroup(Absorb(S11, 8, 3), 12, 3)
    ensures addr(3) >= addr(8) ==> Step(g, addr, S11, 12) == JoinGroup(MergeGroups(S11, 3, 8), 12, 8)
    ensures addr(3) >= addr(8) ==> Step3(g, addr, S11, 12) == JoinGroup(Absorb(S11, 3, 8), 12, 8)
  {
    assert S11.heads[11] == 8 && S11.heads[6] == 3;
    StepMergesTwoArgs(g, addr, S11, 12, 11, 6);
    Step3MergesTwoArgs(g, addr, S11, 12, 11, 6);
  }

  lemma {:induction false} MergedGroupsA()
    ensures JoinGroup(MergeGroups(S11, 8, 3), 12, 3).graphs == map[3 := [3, 4, 5, 6, 8, 10, 11, 12]]
    ensures JoinGroup(Absorb(S11, 8, 3), 12, 3).graphs == map[3 := [3, 4, 5, 6, 8, 10, 11, 12], 8 := [8, 10, 11]]
  {
    assert [3, 4, 5, 6] + [8, 10, 11] + [12] == [3, 4, 5, 6, 8, 10, 11, 12];
  }

  lemma {:induction false} MergedGroupsD()
    ensures JoinGroup(MergeGroups(S11, 3, 8), 12, 8).graphs == map[8 := [8, 10, 11, 3, 4, 5, 6, 12]]
    ensures JoinGroup(Absorb(S11, 3, 8), 12, 8).graphs == map[8 := [8, 10, 11, 3, 4, 5, 6, 12], 3 := [3, 4, 5, 6]]
  {
    assert [8, 10, 11] + [3, 4, 5, 6] + [12] == [8, 10, 11, 3, 4, 5, 6, 12];
  }

  /** The groups of both loops after the whole graph of graph_partition4, before pruning. */
  lemma {:induction false} WalkTo13(g: Graph, addr: NodeId -> nat)
    requires Diamond(g)
    ensures ValidOrder(g, Upto(13))
    ensures Run(g, addr, Upto(13)).graphs ==
      if addr(3) < addr(8) then map[3 := [3, 4, 5, 6, 8, 10, 11, 12]] else map[8 := [8, 10, 11, 3, 4, 5, 6, 12]]
    ensures Run3(g, addr, Upto(13)).graphs ==
      if addr(3) < addr(8) then map[3 := [3, 4, 5, 6, 8, 10, 11, 12], 8 := [8, 10, 11]]
      else map[8 := [8, 10, 11, 3, 4, 5, 6, 12], 3 := [3, 4, 5, 6]]
  {
    WalkNext(g, addr, 11);
    WalkTo12(g, addr);
    if addr(3) < addr(8) {
      WalkLastHeadA(g, addr);
    } else {
      WalkLastHeadD(g, addr);
    }
  }

  /** The last node when add_ab's head comes first in address order. */
  lemma {:induction false} WalkLastHeadA(g: Graph, addr: NodeId -> nat)
    requires |g| == 13 && g[12].kind == BinaryArithmetic(Multiply) && g[12].args == [11, 6]
    requires ValidOrder(g, Upto(12)) && Run(g, addr, Upto(12)) == S11 && Run3(g, addr, Upto(12)) == S11
    requires addr(3) < addr(8)
    ensures ValidOrder(g, Upto(13))
    ensures Run(g, addr, Upto(13)).graphs == map[3 := [3, 4, 5, 6, 8, 10, 11, 12]]
    ensures Run3(g, addr, Upto(13)).graphs == map[3 := [3, 4, 5, 6, 8, 10, 11, 12], 8 := [8, 10, 11]]
  {
    WalkNext(g, addr, 12);
    StepAt12(g, addr);
    MergedGroupsA();
  }

  /** The last node when d_abs's head comes first. */
  lemma {:induction false} WalkLastHeadD(g: Graph, addr: NodeId -> nat)
    requires |g| == 13 && g[12].kind == BinaryArithmetic(Multiply) && g[12].args == [11, 6]
    requires ValidOrder(g, Upto(12)) && Run(g, addr, Upto(12)) == S11 && Run3(g, addr, Upto(12)) == S11
    requires addr(3) >= addr(8)
    ensures ValidOrder(g, Upto(13))
    ensures Run(g, addr, Upto(13)).graphs == map[8 := [8, 10, 11, 3, 4, 5, 6, 12]]
    ensures Run3(g, addr, Upto(13)).graphs == map[8 := [8, 10, 11, 3, 4, 5, 6, 12], 3 := [3, 4, 5, 6]]
  {
    WalkNext(g, addr, 12);
    StepAt12(g, addr);
    MergedGroupsD();
  }

  /**
    graph_partition4: LoopKernelCollector with a minimum of 3 reports a single group of all
    eight fusable nodes, whichever of the two heads is smaller.
  */
  lemma {:induction false} GraphPartition4OneGroup(g: Graph, addr: NodeId -> nat)
    requires Diamond(g)
    ensures ValidOrder(g, Upto(13))
    ensures FusedGroups(g, addr, Upto(13), 3) ==
      if addr(3) < addr(8) then map[3 := [3, 4, 5, 6, 8, 10, 11, 12]] else map[8 := [8, 10, 11, 3, 4, 5, 6, 12]]
    ensures |FusedGroups(g, addr, Upto(13), 3).Keys| == 1
  {
    WalkTo13(g, addr);
    PruneKeepsJoined();
  }

  /** The joined group has eight members; pruning keeps it and there is nothing else. */
  lemma {:induction false} PruneKeepsJoined()
    ensures Prune(map[3 := [3, 4, 5, 6, 8, 10, 11, 12]], 3) == map[3 := [3, 4, 5, 6, 8, 10, 11, 12]]
    ensures Prune(map[8 := [8, 10, 11, 3, 4, 5, 6, 12]], 3) == map[8 := [8, 10, 11, 3, 4, 5, 6, 12]]
    ensures |map[3 := [3, 4, 5, 6, 8, 10, 11, 12]].Keys| == 1 && |map[8 := [8, 10, 11, 3, 4, 5, 6, 12]].Keys| == 1
  {
    assert map[3 := [3, 4, 5, 6, 8, 10, 11, 12]].Keys == {3};
    assert map[8 := [8, 10, 11, 3, 4, 5, 6, 12]].Keys == {8};
  }

  /**
    graph_partition3's loop on the same graph: the group that was merged away is still in
    the map and large enough to survive pruning, so two groups are reported and they share
    the members of the merged-away group.
  */
  lemma {:induction false} GraphPartition3Overlaps(g: Graph, addr: NodeId -> nat)
    requires Diamond(g)
    ensures ValidOrder(g, Upto(13))
    ensures var p := Prune(Run3(g, addr, Upto(13)).graphs, MIN_NODES_TO_FUSE);
      p.Keys == {3, 8} && (if addr(3) < addr(8) then 8 in p[3] && 8 in p[8] else 3 in p[3] && 3 in p[8])
  {
    if addr(3) < addr(8) {
      OverlapHeadA(g, addr);
    } else {
      OverlapHeadD(g, addr);
    }
  }

  lemma {:induction false} OverlapHeadA(g: Graph, addr: NodeId -> nat)
    requires Diamond(g) && addr(3) < addr(8)
    ensures ValidOrder(g, Upto(13))
    ensures var p := Prune(Run3(g, addr, Upto(13)).graphs, MIN_NODES_TO_FUSE);
      p.Keys == {3, 8} && 8 in p[3] && 8 in p[8]
  {
    WalkTo13(g, addr);
    PrunedOverlapA(Run3(g, addr, Upto(13)).graphs);
  }

  lemma {:induction false} OverlapHeadD(g: Graph, addr: NodeId -> nat)
    requires Diamond(g) && addr(3) >= addr(8)
    ensures ValidOrder(g, Upto(13))
    ensures var p := Prune(Run3(g, addr, Upto(13)).graphs, MIN_NODES_TO_FUSE);
      p.Keys == {3, 8} && 3 in p[3] && 3 in p[8]
  {
    WalkTo13(g, addr);
    PrunedOverlapD(Run3(g, addr, Upto(13)).graphs);
  }

  lemma {:induction false} PrunedOverlapA(graphs: map<NodeId, seq<NodeId>>)
    requires graphs == map[3 := [3, 4, 5, 6, 8, 10, 11, 12], 8 := [8, 10, 11]]
    ensures var p := Prune(graphs, MIN_NODES_TO_FUSE); p.Keys == {3, 8} && 8 in p[3] && 8 in p[8]
  {
    assert graphs.Keys == {3, 8} && graphs[3][4] == 8 && graphs[8][0] == 8;
    StaleGroupKept(graphs, 3, 8, 4);
  }

  lemma {:induction false} PrunedOverlapD(graphs: map<NodeId, seq<NodeId>>)
    requires graphs == map[8 := [8, 10, 11, 3, 4, 5, 6, 12], 3 := [3, 4, 5, 6]]
    ensures var p := Prune(graphs, MIN_NODES_TO_FUSE); p.Keys == {3, 8} && 3 in p[3] && 3 in p[8]
  {
    assert graphs.Keys == {3, 8} && graphs[8][3] == 3 && graphs[3][0] == 3;
    StaleGroupKept(graphs, 8, 3, 3);
  }

  /** A stale group `src` left inside the group `dst` at position i: pruning keeps both. */
  lemma {:induction false} StaleGroupKept(graphs: map<NodeId, seq<NodeId>>, dst: NodeId, src: NodeId, i: nat)
    requires graphs.Keys == {dst, src} && |graphs[dst]| >= 3 && |graphs[src]| >= 3
    requires i < |graphs[dst]| && graphs[dst][i] == src && graphs[src][0] == src
    ensures var p := Prune(graphs, MIN_NODES_TO_FUSE);
      p.Keys == {dst, src} && src in p[dst] && src in p[src]
  {
    var p := Prune(graphs, MIN_NODES_TO_FUSE);
    assert p[dst][i] == src && p[src][0] == src;
  }

  // ---------------------------------------------------------------------------
  // The same two tests against the merge loop as written
  // ---------------------------------------------------------------------------

  /** One more node of the creation order meets the condition of the loop as written iff its step does. */
  lemma {:induction false} NoSelfMergeNextNode(g: Graph, addr: NodeId -> nat, k: nat)
    requires k < |g|
    ensures ValidOrder(g, Upto(k)) && ValidOrder(g, Upto(k + 1))
    ensures CollectorAsWritten.RunNoSelfMerge(g, addr, Upto(k + 1)) <==>
      CollectorAsWritten.RunNoSelfMerge(g, addr, Upto(k)) &&
      CollectorAsWritten.StepNoSelfMerge(g, addr, Run(g, addr, Upto(k)), k)
  {
    WalkNext(g, addr, k);
    assert Upto(k + 1)[..k] == Upto(k);
  }

  /** The first k nodes in creation order are a valid order. */
  lemma {:induction false} UptoValid(g: Graph, k: nat)
    requires k <= |g|
    ensures ValidOrder(g, Upto(k))
  {
  }

  /** A node with one argument merges nothing. */
  lemma {:induction false} OneArgMergesNothing(g: Graph, addr: NodeId -> nat, k: nat, st: Groups)
    requires k < |g| && |g[k].args| == 1 && HeadsAreKeys(st)
    ensures CollectorAsWritten.StepNoSelfMerge(g, addr, st, k)
  {
    CollectorAsWritten.OneGroupedArgNoSelfMerge(g, addr, st, k, g[k].args[0]);
  }

  /** A node whose other argument is never grouped (a parameter or an output selector) merges nothing. */
  lemma {:induction false} LeafArgMergesNothing(g: Graph, addr: NodeId -> nat, k: nat, leaf: NodeId, a: NodeId)
    requires k < |g| && leaf < |g| && !IsFusable(g, leaf)
    requires g[k].args == [leaf, a] || g[k].args == [a, leaf]
    ensures ValidOrder(g, Upto(k))
    ensures CollectorAsWritten.StepNoSelfMerge(g, addr, Run(g, addr, Upto(k)), k)
  {
    UptoValid(g, k);
    GroupedIffFusable(g, addr, Upto(k), leaf);
    CollectorAsWritten.OneGroupedArgNoSelfMerge(g, addr, Run(g, addr, Upto(k)), k, a);
  }

  /**
    Up to mul_cd every fusable node of the test graph has at most one grouped argument: its
    other arguments are parameters or the GetOutputElement node, which are never grouped.
  */
  lemma {:induction false} DiamondStepMergesNothing(g: Graph, addr: NodeId -> nat, k: nat)
    requires Diamond(g) && k < 12
    ensures ValidOrder(g, Upto(k))
    ensures CollectorAsWritten.StepNoSelfMerge(g, addr, Run(g, addr, Upto(k)), k)
  {
    UptoValid(g, k);
    if k == 3 {
      LeafArgMergesNothing(g, addr, k, 1, 0);
    } else if k == 6 {
      LeafArgMergesNothing(g, addr, k, 2, 5);
    } else if k == 10 {
      LeafArgMergesNothing(g, addr, k, 9, 8);
    } else if k == 4 || k == 5 || k == 8 || k == 11 {
      OneArgMergesNothing(g, addr, k, Run(g, addr, Upto(k)));
    } else {
      assert k == 0 || k == 1 || k == 2 || k == 7 || k == 9;
      assert !IsFusable(g, k);
    }
  }

  /** No node before mul_cd leads the loop as written into a self-merge. */
  lemma {:induction false} DiamondNoSelfMergeUpto(g: Graph, addr: NodeId -> nat, k: nat)
    requires Diamond(g) && k <= 12
    ensures ValidOrder(g, Upto(k))
    ensures CollectorAsWritten.RunNoSelfMerge(g, addr, Upto(k))
    decreases k
  {
    if k == 0 {
      assert Upto(0) == [];
    } else {
      DiamondNoSelfMergeUpto(g, addr, k - 1);
      DiamondStepMergesNothing(g, addr, k - 1);
      NoSelfMergeNextNode(g, addr, k - 1);
    }
  }

  /** At mul_cd the two arguments are in the groups of add_ab and d_abs. */
  lemma {:induction false} HeadsAtMulCd()
    ensures 11 in S11.heads && 6 in S11.heads && S11.heads[11] == 8 && S11.heads[6] == 3
  {
  }

  /** mul_cd merges the two chains' groups, which are distinct, so it merges once and never into itself. */
  lemma {:induction false} MulCdMergesOnce(g: Graph, addr: NodeId -> nat)
    requires Diamond(g)
    ensures ValidOrder(g, Upto(12))
    ensures CollectorAsWritten.StepNoSelfMerge(g, addr, Run(g, addr, Upto(12)), 12)
  {
    UptoValid(g, 12);
    WalkTo12(g, addr);
    MulCdMergesTwoGroups(g, addr, Run(g, addr, Upto(12)));
  }

  lemma {:induction false} MulCdMergesTwoGroups(g: Graph, addr: NodeId -> nat, st: Groups)
    requires |g| == 13 && g[12].args == [11, 6] && st == S11
    ensures HeadsAreKeys(st) && CollectorAsWritten.StepNoSelfMerge(g, addr, st, 12)
  {
    HeadsAtMulCd();
    CollectorAsWritten.TwoGroupsNoSelfMerge(g, addr, st, 12, 11, 6);
  }

  /** The whole test graph, in creation order, never leads the loop as written into a self-merge. */
  lemma {:induction false} DiamondNoSelfMerge(g: Graph, addr: NodeId -> nat)
    requires Diamond(g)
    ensures ValidOrder(g, Upto(12)) && ValidOrder(g, Upto(13))
    ensures CollectorAsWritten.RunNoSelfMerge(g, addr, Upto(12))
    ensures CollectorAsWritten.RunNoSelfMerge(g, addr, Upto(13))
  {
    DiamondNoSelfMergeUpto(g, addr, 12);
    MulCdMergesOnce(g, addr);
    NoSelfMergeNextNode(g, addr, 12);
  }

  /**
    graph_partition4 with the merge loop as written: no node meets a self-merge, so the
    collector as written runs to the end and reports the same single group.
  */
  lemma {:induction false} GraphPartition4AsWritten(g: Graph, addr: NodeId -> nat)
    requires Diamond(g)
    ensures ValidOrder(g, Upto(13))
    ensures CollectorAsWritten.RunAsWritten(g, addr, Upto(13)) == Success(Run(g, addr, Upto(13)))
    ensures Prune(CollectorAsWritten.RunAsWritten(g, addr, Upto(13)).value.graphs, 3) ==
      if addr(3) < addr(8) then map[3 := [3, 4, 5, 6, 8, 10, 11, 12]] else map[8 := [8, 10, 11, 3, 4, 5, 6, 12]]
  {
    DiamondNoSelfMerge(g, addr);
    CollectorAsWritten.RunAsWrittenExact(g, addr, Upto(13));
    GraphPartition4OneGroup(g, addr);
  }

  /** graph_partition5 with the merge loop as written: the same two groups. */
  lemma {:induction false} GraphPartition5AsWritten(g: Graph, addr: NodeId -> nat)
    requires Diamond(g)
    ensures ValidOrder(g, Upto(12))
    ensures CollectorAsWritten.RunAsWritten(g, addr, Upto(12)) == Success(Run(g, addr, Upto(12)))
    ensures Prune(CollectorAsWritten.RunAsWritten(g, addr, Upto(12)).value.graphs, 3) ==
      map[3 := [3, 4, 5, 6], 8 := [8, 10, 11]]
  {
    DiamondNoSelfMerge(g, addr);
    CollectorAsWritten.RunAsWrittenExact(g, addr, Upto(12));
    GraphPartition5TwoGroups(g, addr);
  }
}
