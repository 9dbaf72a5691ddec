/**
  The two leader-map helpers of test/cpu_fusion.cpp: get_leader follows a node-to-node map
  until it reaches a node mapped to itself, and update_leader rewrites every value equal to
  one node into another. A map of this kind is what m_heads is, so the module also relates
  both helpers to the partition state of module Partition.
*/
module LeaderMap {
  import opened Wrappers
  import opened Graph
  import opened Partition

  /**
    Following `m` from `x` ends within `steps` lookups: either at a node mapped to itself
    or at a node that is not a key. A chain that cycles without a fixed point satisfies
    this for no bound; get_leader does not return on such a chain.
  */
  predicate Settles(m: map<NodeId, NodeId>, x: NodeId, steps: nat)
    decreases steps
  {
    x !in m || m[x] == x || (steps > 0 && Settles(m, m[x], steps - 1))
  }

  /** The node get_leader returns, or the exception a missing key raises. */
  function Leader(m: map<NodeId, NodeId>, x: NodeId, steps: nat): (r: Result<NodeId, Error>)
    requires Settles(m, x, steps)
    decreases steps
  {
    if x !in m then Failure(OutOfRange)
    else if m[x] == x then Success(x)
    else Leader(m, m[x], steps - 1)
  }

  /** A leader get_leader returns is a key mapped to itself. */
  lemma {:induction false} LeaderIsFixpoint(m: map<NodeId, NodeId>, x: NodeId, steps: nat)
    requires Settles(m, x, steps)
    ensures Leader(m, x, steps).Success? ==> Leader(m, x, steps).value in m && m[Leader(m, x, steps).value] == Leader(m, x, steps).value
    decreases steps
  {
    if x in m && m[x] != x {
      LeaderIsFixpoint(m, m[x], steps - 1);
    }
  }

  /** The outcome does not depend on which bound proves that the chain ends. */
  lemma {:induction false} LeaderBoundIrrelevant(m: map<NodeId, NodeId>, x: NodeId, s1: nat, s2: nat)
    requires Settles(m, x, s1) && Settles(m, x, s2)
    ensures Leader(m, x, s1) == Leader(m, x, s2)
    decreases s1
  {
    if x in m && m[x] != x {
      LeaderBoundIrrelevant(m, m[x], s1 - 1, s2 - 1);
    }
  }

  /**
    get_leader(oldn, groups) (test/cpu_fusion.cpp:1510-1518): while the current node is not
    mapped to itself, move to the node it is mapped to. `steps` is a bound on the number of
    moves, which the caller must be able to give: on a cycle the C++ loop never ends.
  */
  method GetLeader(oldn: NodeId, groups: map<NodeId, NodeId>, ghost steps: nat) returns (r: Result<NodeId, Error>)
    requires Settles(groups, oldn, steps)
    ensures r == Leader(groups, oldn, steps)
  {
    var it := oldn;
    ghost var left := steps;
    while it in groups && it != groups[it]
      invariant Settles(groups, it, left)
      invariant Leader(groups, it, left) == Leader(groups, oldn, steps)
      decreases left
    {
      it := groups[it];
      left := left - 1;
    }
    if it !in groups {
      return Failure(OutOfRange);
    }
    return Success(it);
  }

  /** The map update_leader(oldn, newn, groups) leaves: every value oldn becomes newn. */
  function Relabel(m: map<NodeId, NodeId>, oldn: NodeId, newn: NodeId): (r: map<NodeId, NodeId>)
    ensures r.Keys == m.Keys
    ensures oldn != newn ==> forall x :: x in r ==> r[x] != oldn
  {
    map x | x in m :: if m[x] == oldn then newn else m[x]
  }

  /**
    update_leader and update_leader2 (test/cpu_fusion.cpp:1548-1574), which are the same
    function twice: walking every entry of the map, an entry whose value is oldn gets the
    value newn. Keys are never added or removed.
  */
  method UpdateLeader(oldn: NodeId, newn: NodeId, groups: map<NodeId, NodeId>) returns (updated: map<NodeId, NodeId>)
    ensures updated.Keys == groups.Keys
    ensures forall x :: x in groups && groups[x] == oldn ==> updated[x] == newn
    ensures forall x :: x in groups && groups[x] != oldn ==> updated[x] == groups[x]
    ensures updated == Relabel(groups, oldn, newn)
  {
    updated := groups;
    var pending := groups.Keys;
    while pending != {}
      invariant pending <= groups.Keys && updated.Keys == groups.Keys
      invariant forall x :: x in groups && x !in pending ==> updated[x] == if groups[x] == oldn then newn else groups[x]
      invariant forall x :: x in pending ==> updated[x] == groups[x]
      decreases pending
    {
      var x :| x in pending;
      if updated[x] == oldn {
        updated := updated[x := newn];
      }
      pending := pending - {x};
    }
    assert updated == Relabel(groups, oldn, newn);
  }

  /** On the heads map, merging two groups is update_leader(src, dst). */
  lemma {:induction false} MergeIsUpdateLeader(st: Groups, src: NodeId, dst: NodeId)
    requires src in st.graphs && dst in st.graphs && src != dst
    ensures MergeGroups(st, src, dst).heads == Relabel(st.heads, src, dst)
  {
    assert MergeGroups(st, src, dst).heads.Keys == Relabel(st.heads, src, dst).Keys;
  }

  /**
    In a partition state every head is mapped to itself, so get_leader on m_heads stops
    after one lookup and returns the node's head.
  */
  lemma {:induction false} HeadIsLeader(st: Groups, x: NodeId)
    requires Valid(st) && x in st.heads
    ensures Settles(st.heads, x, 1) && Leader(st.heads, x, 1) == Success(st.heads[x])
  {
    var h := st.heads[x];
    assert st.graphs[h][0] == h;
    assert st.heads[h] == h;
  }
}
