/**
 * The in-process test cluster: a TestCluster owns one Cluster record per
 * node, the shared sorted node set, the resizeDone signal, and acts as the
 * Broadcaster of every node. Calls it makes into pilosa are logged (joins,
 * completions) or modelled by the small Cluster methods below.
 */
module Harness {
  import opened Wrappers
  import opened Hashers
  import opened Uris
  import opened Messages
  import opened Migration

  /** Go's zero URI value, left in a Cluster whose address the harness never sets. */
  const UNSET_URI: URI := URI("", "", 0)

  /** The fields of a Cluster other than its holder's fragments. */
  datatype ClusterMeta = ClusterMeta(
    uri: URI, coordinator: URI, state: string, replicaN: int, hasher: Hasher, nodes: seq<URI>)

  /** The node list after pilosa's Cluster.AddNode(u): u is added unless present. */
  function AddIfAbsent(s: seq<URI>, u: URI): seq<URI>
  {
    if u in s then s else s + [u]
  }

  /** The node list after AddNode(u) for the first k addresses u of us, in order. */
  function AddAllIfAbsent(s: seq<URI>, us: seq<URI>, k: nat): seq<URI>
    requires k <= |us|
  {
    if k == 0 then s else AddIfAbsent(AddAllIfAbsent(s, us, k - 1), us[k - 1])
  }

  /** Adding addresses one at a time keeps a list duplicate-free and adds exactly those addresses. */
  lemma {:induction false} AddAllIfAbsentMembers(s: seq<URI>, us: seq<URI>, k: nat)
    requires k <= |us|
    ensures forall x :: x in AddAllIfAbsent(s, us, k) <==> x in s || x in us[..k]
    ensures NoDuplicates(s) ==> NoDuplicates(AddAllIfAbsent(s, us, k))
  {
    if k > 0 {
      AddAllIfAbsentMembers(s, us, k - 1);
      assert us[..k] == us[..k - 1] + [us[k - 1]];
    }
  }

  /** Adding duplicate-free addresses to an empty list copies them in order. */
  lemma {:induction false} AddAllDistinctCopies(us: seq<URI>, k: nat)
    requires NoDuplicates(us) && k <= |us|
    ensures AddAllIfAbsent([], us, k) == us[..k]
  {
    if k > 0 {
      AddAllDistinctCopies(us, k - 1);
      assert us[k - 1] !in us[..k - 1];
      assert us[..k - 1] + [us[k - 1]] == us[..k];
    }
  }

  /**
   * One node's cluster record (pilosa.Cluster, as far as the harness uses
   * it): its address, the coordinator it was told of, its state, replica
   * count, hasher, node list and the fragments of its holder.
   */
  class Cluster {
    /** Set once, when the harness makes the record. */
    const uri: URI
    const coordinator: URI
    var state: string
    var replicaN: int
    var hasher: Hasher
    var nodes: seq<URI>
    var fragments: Fragments

    /** pilosa.NewCluster with the harness's settings: one replica, the mod hasher. */
    constructor (uri: URI, coordinator: URI)
      ensures this.uri == uri && this.coordinator == coordinator
      ensures state == STARTING && replicaN == 1 && hasher == ModHasher
      ensures nodes == [] && fragments == map[]
    {
      this.uri := uri;
      this.coordinator := coordinator;
      state := STARTING;
      replicaN := 1;
      hasher := ModHasher;
      nodes := [];
      fragments := map[];
    }

    /** pilosa's Cluster.AddNode: the node list gains u unless it has it. */
    method AddNode(u: URI)
      modifies this`nodes
      ensures nodes == AddIfAbsent(old(nodes), u)
    {
      if u !in nodes {
        nodes := nodes + [u];
      }
    }

    /** pilosa's Cluster.MergeClusterStatus: adopt the broadcast state and node list. */
    method MergeClusterStatus(status: ClusterStatus)
      modifies this`state, this`nodes
      ensures state == status.state && nodes == status.nodes
    {
      state := status.state;
      nodes := status.nodes;
    }
  }

  /** The addresses of the records cs, in order. */
  function UrisOf(cs: seq<Cluster>): seq<URI>
  {
    seq(|cs|, k requires 0 <= k < |cs| => cs[k].uri)
  }

  /** The coordinator each record of cs names, in order. */
  function CoordinatorsOf(cs: seq<Cluster>): seq<URI>
  {
    seq(|cs|, k requires 0 <= k < |cs| => cs[k].coordinator)
  }

  ghost function Meta(c: Cluster): ClusterMeta
    reads c`state, c`replicaN, c`hasher, c`nodes
  {
    ClusterMeta(c.uri, c.coordinator, c.state, c.replicaN, c.hasher, c.nodes)
  }

  /**
   * NewCluster(n): a standalone cluster record with one replica, the mod
   * hasher and the nodes http://host0:0 .. http://host<n-1>:0.
   */
  method NewCluster(n: int) returns (c: Cluster)
    ensures fresh(c)
    ensures c.nodes == HostUris(if n < 0 then 0 else n)
    ensures c.replicaN == 1 && c.hasher == ModHasher && c.state == STARTING && c.fragments == map[]
  {
    c := new Cluster(UNSET_URI, UNSET_URI);
    var i := 0;
    while i < n
      invariant 0 <= i && (n >= 0 ==> i <= n) && (n < 0 ==> i == 0)
      invariant c.nodes == HostUris(i)
      invariant c.replicaN == 1 && c.hasher == ModHasher && c.state == STARTING && c.fragments == map[]
    {
      assert HostUris(i) + [NodeUri(i)] == HostUris(i + 1);
      c.nodes := c.nodes + [NodeUri(i)];
      i := i + 1;
    }
    assert i == if n < 0 then 0 else n;
  }

  /**
   * c is a freshly made record for the node at uri: it names coordinator,
   * lists nodes, is Starting, keeps one replica, hashes by modulo and holds
   * no fragments.
   */
  ghost predicate IsNewRecord(c: Cluster, uri: URI, coordinator: URI, nodes: seq<URI>)
    reads c
  {
    && c.uri == uri && c.coordinator == coordinator && c.nodes == nodes
    && c.state == STARTING && c.replicaN == 1 && c.hasher == ModHasher && c.fragments == map[]
  }

  /**
   * The cluster record addCluster makes for the node at uri: the head of the
   * node set as coordinator and, when saveTopology, every address of the
   * node set added to its node list in order.
   */
  method NewNodeCluster(uri: URI, nodeSet: seq<URI>, saveTopology: bool) returns (c: Cluster)
    requires |nodeSet| > 0
    ensures fresh(c)
    ensures IsNewRecord(c, uri, nodeSet[0], if saveTopology then AddAllIfAbsent([], nodeSet, |nodeSet|) else [])
  {
    c := new Cluster(uri, nodeSet[0]);
    if saveTopology {
      var k := 0;
      while k < |nodeSet|
        modifies c`nodes
        invariant 0 <= k <= |nodeSet|
        invariant c.nodes == AddAllIfAbsent([], nodeSet, k)
      {
        c.AddNode(nodeSet[k]);
        k := k + 1;
      }
    }
  }

  /** The node set of a cluster of nodes 0 .. n-1: their addresses, sorted. */
  function HostNodeSet(n: nat): seq<URI>
  {
    Sort(HostUris(n))
  }

  /** The node set of nodes 0 .. n-1 lists each of them once, host0 first. */
  lemma HostNodeSetShape(n: nat)
    requires n >= 1
    ensures |HostNodeSet(n)| == n && NoDuplicates(HostNodeSet(n)) && HostNodeSet(n)[0] == NodeUri(0)
  {
    SortSortsAndPermutes(HostUris(n));
    SortedHostsStartWithHostZero(HostNodeSet(n), n);
  }

  /** Saving the node set of nodes 0 .. n-1 into an empty node list copies it. */
  lemma SavedHostNodeSet(n: nat)
    requires n >= 1
    ensures AddAllIfAbsent([], HostNodeSet(n), |HostNodeSet(n)|) == HostNodeSet(n)
  {
    var ns := HostNodeSet(n);
    HostNodeSetShape(n);
    AddAllDistinctCopies(ns, |ns|);
    assert ns[..|ns|] == ns;
  }

  /**
   * Node k is http://host<k>:0, the node set is the sorted list of the
   * nodes' addresses, and every node takes host0 as its coordinator.
   */
  ghost predicate Conforms(uris: seq<URI>, nodeSet: seq<URI>, coordinators: seq<URI>)
  {
    && |coordinators| == |uris|
    && uris == HostUris(|uris|)
    && nodeSet == HostNodeSet(|uris|)
    && forall k :: 0 <= k < |coordinators| ==> coordinators[k] == NodeUri(0)
  }

  /**
   * Adding node n to the node set of nodes 0 .. n-1 and sorting yields the
   * node set of nodes 0 .. n, whatever order the nodes came in; host0 stays
   * at its head.
   */
  lemma JoinHostNodeSet(n: nat)
    ensures Sort(HostNodeSet(n) + [NodeUri(n)]) == HostNodeSet(n + 1)
    ensures HostNodeSet(n + 1)[0] == NodeUri(0)
  {
    HostUrisSnoc(n);
    SortSortsAndPermutes(HostUris(n));
    assert multiset(HostNodeSet(n) + [NodeUri(n)]) == multiset(HostUris(n + 1));
    SortIgnoresArrivalOrder(HostNodeSet(n) + [NodeUri(n)], HostUris(n + 1));
    HostNodeSetShape(n + 1);
  }

  /**
   * The coordinator addCluster picks, the head of the re-sorted node set,
   * is its smallest address: no member of the set orders before it.
   */
  lemma CoordinatorIsSmallest(nodeSet: seq<URI>, uri: URI, u: URI)
    requires u in nodeSet + [uri]
    ensures |Sort(nodeSet + [uri])| == |nodeSet| + 1
    ensures !UriLess(u, Sort(nodeSet + [uri])[0])
  {
    var s := nodeSet + [uri];
    SortSortsAndPermutes(s);
    assert u in multiset(Sort(s));
    SortedHeadIsMinimum(Sort(s), u);
  }

  /**
   * Conforming is kept when node n = len(Clusters) joins, takes the node set
   * of nodes 0 .. n, and names host0 as its coordinator.
   */
  lemma JoinConforms(uris: seq<URI>, nodeSet: seq<URI>, coordinators: seq<URI>)
    requires Conforms(uris, nodeSet, coordinators)
    ensures Conforms(uris + [NodeUri(|uris|)], HostNodeSet(|uris| + 1), coordinators + [NodeUri(0)])
  {
    HostUrisSnoc(|uris|);
  }

  /** The resizeDone channel: nil, made and still open, or closed. */
  datatype Signal = Nil | Open | Closed

  /** Orders the mutually recursive SendTo and FollowResizeInstruction. */
  function Rank(m: Message): nat
  {
    if m.InstructionMessage? then 1 else 0
  }

  class TestCluster {
    var clusters: seq<Cluster>
    var nodeSet: seq<URI>
    var resizeDone: Signal
    /** NodeJoin events handed to the coordinator's ReceiveEvent. */
    var joins: seq<Delivery<NodeEvent>>
    /** Completions handed to the coordinator's MarkResizeInstructionComplete. */
    var completions: seq<Delivery<ResizeInstructionComplete>>

    /** No cluster record appears twice in Clusters. */
    ghost predicate Valid()
      reads this`clusters
    {
      forall i, j :: 0 <= i < j < |clusters| ==> clusters[i] != clusters[j]
    }

    /** The addresses of the cluster records, in order. */
    ghost function NodeUris(): seq<URI>
      reads this`clusters
    {
      UrisOf(clusters)
    }

    /** The fragments of each node's holder, in order. */
    ghost function Frags(): (r: seq<Fragments>)
      reads this`clusters, clusters
      ensures |r| == |clusters|
    {
      var cs := clusters;
      seq(|cs|, i reads cs requires 0 <= i < |cs| => cs[i].fragments)
    }

    /** Record d appears in Clusters at position d only. */
    ghost predicate SoleAt(d: nat)
      reads this`clusters
    {
      d < |clusters| && forall j :: 0 <= j < |clusters| && j != d ==> clusters[j] != clusters[d]
    }

    /** A conforming harness holds each cluster record once: their addresses differ. */
    lemma ConsistentIsValid()
      requires Consistent()
      ensures Valid()
    {
      HostUrisDistinct(|clusters|);
      forall i, j | 0 <= i < j < |clusters| ensures clusters[i] != clusters[j] {
        assert NodeUris()[i] != NodeUris()[j];
      }
    }

    /** The coordinator each node's cluster record names, in order. */
    ghost function Coordinators(): seq<URI>
      reads this`clusters
    {
      CoordinatorsOf(clusters)
    }

    /** The harness's own invariant, on the current node set and records. */
    ghost predicate Consistent()
      reads this`nodeSet, this`clusters
    {
      Conforms(NodeUris(), nodeSet, Coordinators())
    }

    /** NewTestCluster(n): n nodes added with their topology saved. */
    constructor (n: int)
      ensures Consistent()
      ensures |clusters| == if n < 0 then 0 else n
      ensures nodeSet == HostNodeSet(|clusters|)
      ensures resizeDone == Nil && joins == [] && completions == []
      ensures forall k :: 0 <= k < |clusters| ==> fresh(clusters[k])
      ensures Valid()
    {
      clusters, nodeSet, resizeDone, joins, completions := [], [], Nil, [], [];
      new;
      var i := 0;
      while i < n
        invariant 0 <= i && (n >= 0 ==> i <= n) && (n < 0 ==> i == 0)
        invariant |clusters| == i
        invariant Consistent()
        invariant resizeDone == Nil && joins == [] && completions == []
        invariant forall k :: 0 <= k < |clusters| ==> fresh(clusters[k])
      {
        ghost var uris, coordinators, before := NodeUris(), Coordinators(), nodeSet;
        var c, err := AddCluster(i, true, None);
        JoinConforms(uris, before, coordinators);
        i := i + 1;
      }
      ConsistentIsValid();
    }

    /** Add uri to the shared node set and sort it again. */
    method JoinNodeSet(uri: URI)
      modifies this`nodeSet
      ensures nodeSet == Sort(old(nodeSet) + [uri])
    {
      nodeSet := Sort(nodeSet + [uri]);
    }

    /** Append a new cluster record to Clusters. */
    method AppendCluster(c: Cluster)
      requires c !in clusters
      modifies this`clusters
      ensures clusters == old(clusters) + [c]
      ensures NodeUris() == old(NodeUris()) + [c.uri]
      ensures Coordinators() == old(Coordinators()) + [c.coordinator]
    {
      ghost var uris, coordinators := NodeUris(), Coordinators();
      clusters := clusters + [c];
      assert forall k :: 0 <= k < |uris| ==> NodeUris()[k] == uris[k];
      assert forall k :: 0 <= k < |uris| ==> Coordinators()[k] == coordinators[k];
    }

    /**
     * addCluster(i, saveTopology): add http://host<i>:0 to the node set and
     * re-sort it; then (unless the node's temporary directory cannot be
     * made) create its cluster record with the node set's head as
     * coordinator, give it the node set when saveTopology, and append it.
     */
    method AddCluster(i: int, saveTopology: bool, tempDirError: Option<string>) returns (c: Cluster?, err: Option<string>)
      modifies this
      ensures nodeSet == Sort(old(nodeSet) + [NodeUri(i)])
      ensures err == tempDirError
      ensures err.Some? ==> c == null && clusters == old(clusters)
      ensures err.None? ==> c != null && fresh(c) && clusters == old(clusters) + [c]
      ensures err.None? ==>
        IsNewRecord(c, NodeUri(i), nodeSet[0], if saveTopology then AddAllIfAbsent([], nodeSet, |nodeSet|) else [])
      ensures err.None? ==> NodeUris() == old(NodeUris()) + [NodeUri(i)] && Coordinators() == old(Coordinators()) + [nodeSet[0]]
      ensures i >= 0 && old(nodeSet) == HostNodeSet(i) ==>
        nodeSet == HostNodeSet(i + 1) && nodeSet[0] == NodeUri(0) &&
        (err.None? && saveTopology ==> c.nodes == nodeSet)
      ensures resizeDone == old(resizeDone) && joins == old(joins) && completions == old(completions)
    {
      ghost var hosts := i >= 0 && nodeSet == HostNodeSet(i);
      var uri := NodeUri(i);
      JoinNodeSet(uri);
      if hosts {
        JoinHostNodeSet(i);
      }
      if tempDirError.Some? {
        return null, tempDirError;
      }
      c := NewNodeCluster(uri, nodeSet, saveTopology);
      if hosts && saveTopology {
        SavedHostNodeSet(i + 1);
      }
      AppendCluster(c);
      err := None;
    }

    /**
     * AddNode: add node number len(Clusters); unless it is the first node,
     * hand a NodeJoin event for it to the first node's cluster and, when
     * that succeeds and the new node is not yet Normal, make the resizeDone
     * channel to wait on. ReceiveEvent may broadcast a status through this
     * harness; joinedState is the state the new node holds when it returns.
     */
    method AddNode(saveTopology: bool, tempDirError: Option<string>, receiveError: Option<string>, joinedState: string)
      returns (err: Option<string>)
      modifies this
      ensures nodeSet == Sort(old(nodeSet) + [NodeUri(old(|clusters|))])
      ensures tempDirError.Some? ==>
        err == tempDirError && clusters == old(clusters) && joins == old(joins) && resizeDone == old(resizeDone)
      ensures tempDirError.None? ==>
        |clusters| == old(|clusters|) + 1 && clusters[..old(|clusters|)] == old(clusters) &&
        fresh(clusters[old(|clusters|)]) && clusters[old(|clusters|)].uri == NodeUri(old(|clusters|))
      ensures tempDirError.None? && old(|clusters|) == 0 ==>
        err == None && joins == old(joins) && resizeDone == old(resizeDone)
      ensures tempDirError.None? && old(|clusters|) > 0 ==>
        && joins == old(joins) + [Delivery(old(clusters)[0].uri, NodeJoin(NodeUri(old(|clusters|))))]
        && err == receiveError
        && clusters[old(|clusters|)].state == joinedState
        && resizeDone == if receiveError.None? && joinedState != NORMAL then Open else old(resizeDone)
      ensures old(Consistent()) && tempDirError.None? ==> Consistent()
      ensures old(Consistent()) && tempDirError.None? && old(|clusters|) > 0 ==>
        joins[|joins| - 1].to == NodeUri(0)
      ensures completions == old(completions)
    {
      var id := |clusters|;
      ghost var consistent := Consistent();
      ghost var uris, coordinators, before := NodeUris(), Coordinators(), nodeSet;
      assert consistent && id > 0 ==> uris[0] == NodeUri(0);
      var c, e := AddCluster(id, saveTopology, tempDirError);
      if e.Some? {
        return e;
      }
      if consistent {
        JoinConforms(uris, before, coordinators);
      }
      if id > 0 {
        err := AnnounceJoin(c, receiveError, joinedState);
      } else {
        err := None;
      }
    }

    /**
     * The NodeJoin step of AddNode: hand a NodeJoin event for the new node
     * c to the first node's cluster, which leaves c in joinedState; when that
     * succeeds and c is not yet Normal, make the resizeDone channel to wait on.
     */
    method AnnounceJoin(c: Cluster, receiveError: Option<string>, joinedState: string) returns (err: Option<string>)
      requires |clusters| > 0
      modifies this`joins, this`resizeDone, c`state
      ensures joins == old(joins) + [Delivery(clusters[0].uri, NodeJoin(c.uri))]
      ensures err == receiveError && c.state == joinedState
      ensures resizeDone == if receiveError.None? && c.state != NORMAL then Open else old(resizeDone)
    {
      var coord := clusters[0];
      joins := joins + [Delivery(coord.uri, NodeJoin(c.uri))];
      c.state := joinedState;
      if receiveError.Some? {
        return receiveError;
      }
      if c.state != NORMAL {
        resizeDone := Open;
      }
      return None;
    }

    /** clusterByURI: the first cluster record whose address is uri, or null. */
    method ClusterByURI(uri: URI) returns (c: Cluster?)
      ensures IndexOf(NodeUris(), uri).None? ==> c == null
      ensures IndexOf(NodeUris(), uri).Some? ==> c == clusters[IndexOf(NodeUris(), uri).value]
    {
      var i := 0;
      while i < |clusters|
        invariant 0 <= i <= |clusters|
        invariant forall j :: 0 <= j < i ==> clusters[j].uri != uri
      {
        if clusters[i].uri == uri {
          assert NodeUris()[i] == uri;
          return clusters[i];
        }
        i := i + 1;
      }
      return null;
    }

    /** SetState: every node takes the given state; nothing else changes. */
    method SetState(state: string)
      modifies clusters
      ensures forall k :: 0 <= k < |clusters| ==> Meta(clusters[k]) == old(Meta(clusters[k])).(state := state)
      ensures Frags() == old(Frags())
      ensures old(Consistent()) ==> Consistent()
    {
      var i := 0;
      while i < |clusters|
        invariant 0 <= i <= |clusters|
        invariant forall k :: 0 <= k < |clusters| ==> Meta(clusters[k]) == old(Meta(clusters[k])).(state := clusters[k].state)
        invariant forall k :: 0 <= k < i ==> clusters[k].state == state
        invariant forall k :: 0 <= k < |clusters| ==> clusters[k].fragments == old(clusters[k].fragments)
      {
        clusters[i].state := state;
        i := i + 1;
      }
      assert forall k :: 0 <= k < |clusters| ==> Frags()[k] == old(Frags())[k];
    }

    /**
     * SendSync: a ClusterStatus is merged into every node, the coordinator
     * included; when its state is Normal and the resizeDone channel exists it
     * is closed (closing it a second time panics). Other messages change
     * nothing. The error returned is always nil.
     */
    method SendSync(msg: Message) returns (outcome: Outcome)
      modifies this`resizeDone, clusters
      ensures !msg.StatusMessage? ==>
        && outcome == Ok && resizeDone == old(resizeDone)
        && forall k :: 0 <= k < |clusters| ==> Meta(clusters[k]) == old(Meta(clusters[k]))
      ensures msg.StatusMessage? ==>
        forall k :: 0 <= k < |clusters| ==>
          Meta(clusters[k]) == old(Meta(clusters[k])).(state := msg.status.state, nodes := msg.status.nodes)
      ensures msg.StatusMessage? ==>
        resizeDone == if msg.status.state == NORMAL && old(resizeDone) != Nil then Closed else old(resizeDone)
      ensures msg.StatusMessage? ==>
        outcome == if msg.status.state == NORMAL && old(resizeDone) == Closed then Panic("close of closed channel") else Ok
      ensures Frags() == old(Frags())
      ensures old(Consistent()) ==> Consistent()
    {
      outcome := Ok;
      match msg
      case StatusMessage(status) =>
        var i := 0;
        while i < |clusters|
          invariant 0 <= i <= |clusters|
          invariant resizeDone == old(resizeDone)
          invariant forall k :: 0 <= k < |clusters| ==>
            Meta(clusters[k]) == old(Meta(clusters[k])).(state := clusters[k].state, nodes := clusters[k].nodes)
          invariant forall k :: 0 <= k < i ==> clusters[k].state == status.state && clusters[k].nodes == status.nodes
          invariant forall k :: 0 <= k < |clusters| ==> clusters[k].fragments == old(clusters[k].fragments)
        {
          clusters[i].MergeClusterStatus(status);
          i := i + 1;
        }
        assert forall k :: 0 <= k < |clusters| ==> Frags()[k] == old(Frags())[k];
        if status.state == NORMAL && resizeDone != Nil {
          if resizeDone == Closed {
            outcome := Panic("close of closed channel");
          }
          resizeDone := Closed;
        }
      case _ =>
    }

    /** SendAsync: does nothing and returns nil. */
    method SendAsync(msg: Message) returns (outcome: Outcome)
      ensures outcome == Ok
    {
      outcome := Ok;
    }

    /**
     * SendTo: a ResizeInstruction is followed at once (its error is dropped,
     * only a panic escapes); a ResizeInstructionComplete is handed to the
     * addressed node's cluster (a nil cluster panics); anything else is
     * ignored.
     */
    method SendTo(to: URI, msg: Message, faults: HolderFaults) returns (outcome: Outcome)
      requires Valid()
      modifies this`completions, clusters
      ensures forall k :: 0 <= k < |clusters| ==> Meta(clusters[k]) == old(Meta(clusters[k]))
      ensures msg.InstructionMessage? ==>
        var r := Follow(old(NodeUris()), old(Frags()), msg.instruction, faults);
        && Frags() == r.holders
        && outcome == (if r.outcome.Panic? then r.outcome else Ok)
        && completions == old(completions) + if r.outcome.Ok? then [Delivery(msg.instruction.coordinator, r.sent.value)] else []
      ensures msg.CompleteMessage? ==>
        && Frags() == old(Frags())
        && (to in NodeUris() ==> outcome == Ok && completions == old(completions) + [Delivery(to, msg.complete)])
        && (to !in NodeUris() ==> outcome == Panic("coordinator cluster not found") && completions == old(completions))
      ensures !msg.InstructionMessage? && !msg.CompleteMessage? ==>
        outcome == Ok && Frags() == old(Frags()) && completions == old(completions)
      decreases Rank(msg), 1
    {
      match msg
      case InstructionMessage(instr) =>
        var o := FollowResizeInstruction(instr, faults);
        outcome := if o.Panic? then o else Ok;
      case CompleteMessage(complete) =>
        var coord := ClusterByURI(to);
        if coord == null {
          outcome := Panic("coordinator cluster not found");
        } else {
          completions := completions + [Delivery(to, complete)];
          outcome := Ok;
        }
      case _ =>
        outcome := Ok;
    }

    /**
     * FollowResizeInstruction: apply the schema on the destination, then for
     * each source in order copy the source node's fragment into the
     * destination's (creating it when absent), stopping at the first
     * failure; only when every source is copied, send the completion (job,
     * destination, no error) to the coordinator.
     */
    method FollowResizeInstruction(instr: ResizeInstruction, faults: HolderFaults) returns (outcome: Outcome)
      requires Valid()
      modifies this`completions, clusters
      ensures forall k :: 0 <= k < |clusters| ==> Meta(clusters[k]) == old(Meta(clusters[k]))
      ensures var r := Follow(old(NodeUris()), old(Frags()), instr, faults);
        && outcome == r.outcome
        && Frags() == r.holders
        && completions == old(completions) + if r.outcome.Ok? then [Delivery(instr.coordinator, r.sent.value)] else []
      decreases 0, 2
    {
      var complete := ResizeInstructionComplete(instr.jobID, instr.uri, "");
      var dest := ClusterByURI(instr.uri);
      if dest == null {
        return Panic("destination cluster not found");
      }
      if faults.schemaError.Some? {
        return Err(faults.schemaError.value);
      }
      ghost var d := IndexOf(NodeUris(), instr.uri).value;
      ghost var start := Frags();
      assert SoleAt(d);
      var stop := CopySources(dest, d, instr.sources, faults);
      FragsAfterUpdate(start, d);
      if stop.Some? {
        return stop.value;
      }
      outcome := SendTo(instr.coordinator, CompleteMessage(complete), faults);
    }

    /**
     * The copy loop of FollowResizeInstruction: copy each source in order
     * into the destination's holder, stopping at the first failure. Returns
     * the outcome it stopped with, or None when every source was copied.
     */
    method CopySources(dest: Cluster, ghost d: nat, sources: seq<ResizeSource>, faults: HolderFaults) returns (stop: Option<Outcome>)
      requires SoleAt(d) && clusters[d] == dest
      modifies dest`fragments
      ensures var r := RunSources(NodeUris(), old(Frags()), d, sources, faults, |sources|);
        && dest.fragments == r.frags
        && (r.Running? <==> stop.None?)
        && (r.Stopped? ==> stop == Some(r.outcome))
    {
      ghost var uris, start := NodeUris(), Frags();
      var k := 0;
      while k < |sources|
        invariant 0 <= k <= |sources|
        invariant RunSources(uris, start, d, sources, faults, k) == Running(dest.fragments)
      {
        RunSourcesStep(uris, start, d, sources, faults, k, dest.fragments);
        stop := CopyFromSource(dest, d, start, sources[k], faults.At(k));
        if stop.Some? {
          StoppedIsFinal(uris, start, d, sources, faults, k + 1, |sources|);
          return;
        }
        k := k + 1;
      }
      return None;
    }

    /**
     * One pass of the copy loop, for source src: find the source node's
     * cluster, create the destination fragment (empty) when absent, export
     * the source fragment and import it into the destination. Every node
     * but the destination holds what holders gives it. Returns the outcome
     * the loop stops with, or None to go on.
     */
    method CopyFromSource(dest: Cluster, ghost d: nat, ghost holders: seq<Fragments>, src: ResizeSource, fault: Option<StepFault>)
      returns (stop: Option<Outcome>)
      requires SoleAt(d) && clusters[d] == dest && |holders| == |clusters|
      requires forall j :: 0 <= j < |clusters| && j != d ==> clusters[j].fragments == holders[j]
      modifies dest`fragments
      ensures var r := CopySource(NodeUris(), holders, d, old(dest.fragments), src, fault);
        && dest.fragments == r.frags
        && (r.Running? <==> stop.None?)
        && (r.Stopped? ==> stop == Some(r.outcome))
    {
      var key := src.Key();
      var srcCluster := ClusterByURI(src.uri);
      if srcCluster == null {
        return Some(Panic("source cluster not found"));
      }
      var exported := if key in srcCluster.fragments then Some(srcCluster.fragments[key]) else None;
      if key !in dest.fragments {
        if fault.Some? && fault.value.CreateFailed? {
          return Some(Err(fault.value.message));
        }
        dest.fragments := dest.fragments[key := []];
      }
      if exported.None? {
        return Some(Panic("source fragment not found"));
      }
      if fault.Some? && !fault.value.CreateFailed? {
        return Some(Err(fault.value.message));
      }
      dest.fragments := dest.fragments[key := exported.value];
      return None;
    }

    /** After the holder of node d is replaced, only entry d of Frags() differs. */
    lemma FragsAfterUpdate(before: seq<Fragments>, d: nat)
      requires SoleAt(d) && |before| == |clusters|
      requires forall j :: 0 <= j < |clusters| && j != d ==> before[j] == clusters[j].fragments
      ensures Frags() == before[d := clusters[d].fragments]
    {
    }
  }
}
