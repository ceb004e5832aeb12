/** `PdfAstGraph` in sequential-id mode (src/ast/graph.rs): stored nodes and edges, the two indexes,
    and the child and reference lists cached in the nodes. */
module AstGraph {
  import opened Bits

  type NodeId = nat

  datatype ObjectId = ObjectId(number: nat, generation: nat)

  /** `Object` node types carry a PDF object id; the other types are told apart by a tag. */
  datatype NodeType = Object(objectId: ObjectId) | Other(tag: nat)

  datatype AstNode = AstNode(id: NodeId, nodeType: NodeType, children: seq<NodeId>, references: seq<NodeId>)

  datatype EdgeType = Child | Reference | Parent | Resource | Annotation | Content

  /** Edges join positions of stored nodes. */
  datatype Edge = Edge(source: nat, target: nat, edgeType: EdgeType)

  datatype Graph = Graph(nodes: seq<AstNode>, edges: seq<Edge>, nodeMap: map<NodeId, nat>,
                         objectMap: map<ObjectId, NodeId>, nextNodeId: nat)

  const NOTHING := Graph([], [], map[], map[], 0)

  // ---------------------------------------------------------------- queries

  /** Ids of the nodes that edges of one type lead to from a position, newest edge first. */
  function Targets(edges: seq<Edge>, nodes: seq<AstNode>, source: nat, edgeType: EdgeType): seq<NodeId> {
    if edges == [] then []
    else
      var last := edges[|edges| - 1];
      (if last.source == source && last.edgeType == edgeType && last.target < |nodes| then
        [nodes[last.target].id] else [])
      + Targets(edges[..|edges| - 1], nodes, source, edgeType)
  }

  /** `get_children` */
  function Children(g: Graph, id: NodeId): seq<NodeId> {
    if id in g.nodeMap then Targets(g.edges, g.nodes, g.nodeMap[id], Child) else []
  }

  /** `get_references` */
  function References(g: Graph, id: NodeId): seq<NodeId> {
    if id in g.nodeMap then Targets(g.edges, g.nodes, g.nodeMap[id], Reference) else []
  }

  /** `get_node` */
  function NodeOf(g: Graph, id: NodeId): Option<AstNode> {
    if id in g.nodeMap && g.nodeMap[id] < |g.nodes| then Some(g.nodes[g.nodeMap[id]]) else None
  }

  /** `get_node_by_object` */
  function NodeByObject(g: Graph, objectId: ObjectId): Option<AstNode> {
    if objectId in g.objectMap then NodeOf(g, g.objectMap[objectId]) else None
  }

  /** `get_parent`: the source of the newest child edge into a node. */
  function ParentOf(g: Graph, id: NodeId): Option<NodeId> {
    if id in g.nodeMap then ParentFrom(g, g.nodeMap[id], |g.edges|) else None
  }

  function ParentFrom(g: Graph, target: nat, n: nat): Option<NodeId>
    requires n <= |g.edges|
  {
    if n == 0 then None
    else
      var e := g.edges[n - 1];
      if e.target == target && e.edgeType == Child && e.source < |g.nodes| then Some(g.nodes[e.source].id)
      else ParentFrom(g, target, n - 1)
  }

  /** Edge `k` is a child edge from a stored node into a position. */
  predicate ChildEdge(g: Graph, k: nat, target: nat)
    requires k < |g.edges|
  {
    g.edges[k].edgeType == Child && g.edges[k].target == target && g.edges[k].source < |g.nodes|
  }

  /** The newest child edge into the node leaves the node `p`. */
  ghost predicate IsParent(g: Graph, id: NodeId, p: NodeId) {
    id in g.nodeMap && exists k ::
      && 0 <= k < |g.edges| && ChildEdge(g, k, g.nodeMap[id]) && g.nodes[g.edges[k].source].id == p
      && forall m :: k < m < |g.edges| ==> !ChildEdge(g, m, g.nodeMap[id])
  }

  lemma {:induction false} NewestFound(g: Graph, target: nat, n: nat)
    requires n <= |g.edges| && forall m :: n <= m < |g.edges| ==> !ChildEdge(g, m, target)
    ensures ParentFrom(g, target, n).None? ==> forall m :: 0 <= m < |g.edges| ==> !ChildEdge(g, m, target)
    ensures ParentFrom(g, target, n).Some? ==> exists k ::
      && 0 <= k < |g.edges| && ChildEdge(g, k, target)
      && ParentFrom(g, target, n) == Some(g.nodes[g.edges[k].source].id)
      && forall m :: k < m < |g.edges| ==> !ChildEdge(g, m, target)
  {
    if n > 0 {
      if ChildEdge(g, n - 1, target) {
        assert ParentFrom(g, target, n) == Some(g.nodes[g.edges[n - 1].source].id);
      } else {
        NewestFound(g, target, n - 1);
      }
    }
  }

  lemma ParentExactly(g: Graph, id: NodeId)
    ensures forall p: NodeId :: ParentOf(g, id) == Some(p) <==> IsParent(g, id, p)
  {
    hide ParentFrom;
    if id in g.nodeMap {
      NewestFound(g, g.nodeMap[id], |g.edges|);
    }
  }

  // ---------------------------------------------------------------- updates

  function WithObject(objectMap: map<ObjectId, NodeId>, nodeType: NodeType, id: NodeId): map<ObjectId, NodeId> {
    if nodeType.Object? then objectMap[nodeType.objectId := id] else objectMap
  }

  /** `add_node`: whatever the id and the cached lists of the node. */
  function NodeAdded(g: Graph, node: AstNode): Graph {
    Graph(g.nodes + [node], g.edges, g.nodeMap[node.id := |g.nodes|], WithObject(g.objectMap, node.nodeType, node.id),
          Max(g.nextNodeId, node.id + 1))
  }

  /** `create_node` with the next sequential id. */
  function NodeCreated(g: Graph, nodeType: NodeType): Graph {
    NodeAdded(g, AstNode(g.nextNodeId, nodeType, [], []))
  }

  function Cached(node: AstNode, edgeType: EdgeType, target: NodeId): AstNode {
    match edgeType
    case Child => node.(children := node.children + [target])
    case Reference => node.(references := node.references + [target])
    case _ => node
  }

  /** `add_edge`: nothing happens unless both ends are known. */
  function EdgeAdded(g: Graph, from: NodeId, to: NodeId, edgeType: EdgeType): Graph {
    if from in g.nodeMap && to in g.nodeMap then
      var source := g.nodeMap[from];
      var nodes := if source < |g.nodes| then g.nodes[source := Cached(g.nodes[source], edgeType, to)] else g.nodes;
      g.(nodes := nodes, edges := g.edges + [Edge(source, g.nodeMap[to], edgeType)])
    else g
  }

  /** `next` is `g` with one node more: stored last, indexed under its id and its object, everything else as before. */
  ghost predicate Stored(g: Graph, next: Graph, node: AstNode) {
    && next.nodes == g.nodes + [node] && next.edges == g.edges
    && NodeOf(next, node.id) == Some(node) && next.nodeMap == g.nodeMap[node.id := |g.nodes|]
    && (forall o :: o in next.objectMap <==> o in g.objectMap || node.nodeType == Object(o))
    && (forall o :: o in next.objectMap ==>
          next.objectMap[o] == if node.nodeType == Object(o) then node.id else g.objectMap[o])
    && next.nextNodeId > node.id && next.nextNodeId >= g.nextNodeId
    && (next.nextNodeId == g.nextNodeId || next.nextNodeId == node.id + 1)
  }

  /** `next` is `g` with one edge more, stored last; the node it leaves caches its end if it is of a cached type, and
      everything else is as before. */
  ghost predicate Linked(g: Graph, next: Graph, from: NodeId, to: NodeId, edgeType: EdgeType)
    requires from in g.nodeMap && to in g.nodeMap
  {
    && next.edges == g.edges + [Edge(g.nodeMap[from], g.nodeMap[to], edgeType)]
    && next.nodeMap == g.nodeMap && next.objectMap == g.objectMap && next.nextNodeId == g.nextNodeId
    && |next.nodes| == |g.nodes|
    && forall i :: 0 <= i < |g.nodes| ==>
         && next.nodes[i].id == g.nodes[i].id && next.nodes[i].nodeType == g.nodes[i].nodeType
         && next.nodes[i].children ==
              g.nodes[i].children + (if i == g.nodeMap[from] && edgeType == Child then [to] else [])
         && next.nodes[i].references ==
              g.nodes[i].references + (if i == g.nodeMap[from] && edgeType == Reference then [to] else [])
  }

  /** What the queries of a consistent graph answer after an edge: the ends of the edges of each type gain the new end,
      and those of every other node and type stay. */
  ghost predicate LinksGrow(g: Graph, next: Graph, from: NodeId, to: NodeId, edgeType: EdgeType) {
    && (forall id, t, x :: id in g.nodeMap && id in next.nodeMap ==>
          (Leads(next, next.nodeMap[id], t, x) <==>
            Leads(g, g.nodeMap[id], t, x) || (id == from && t == edgeType && x == to)))
    && forall id :: ChildrenGrow(g, next, from, to, edgeType, id) && ReferencesGrow(g, next, from, to, edgeType, id)
  }

  ghost predicate ChildrenGrow(g: Graph, next: Graph, from: NodeId, to: NodeId, edgeType: EdgeType, id: NodeId) {
    multiset(Children(next, id)) ==
      multiset(Children(g, id)) + (if id == from && edgeType == Child then multiset{to} else multiset{})
  }

  ghost predicate ReferencesGrow(g: Graph, next: Graph, from: NodeId, to: NodeId, edgeType: EdgeType, id: NodeId) {
    multiset(References(next, id)) ==
      multiset(References(g, id)) + (if id == from && edgeType == Reference then multiset{to} else multiset{})
  }

  class PdfAstGraph {
    var nodes: seq<AstNode>
    var edges: seq<Edge>
    var nodeMap: map<NodeId, nat>
    var objectMap: map<ObjectId, NodeId>
    var nextNodeId: nat

    ghost function State(): Graph
      reads this
    {
      Graph(nodes, edges, nodeMap, objectMap, nextNodeId)
    }

    constructor ()
      ensures State() == Graph([], [], map[], map[], 0) && Consistent(State())
    {
      nodes, edges, nodeMap, objectMap, nextNodeId := [], [], map[], map[], 0;
    }

    method CreateNode(nodeType: NodeType) returns (nodeId: NodeId)
      modifies this
      ensures nodeId == old(nextNodeId) && State() == NodeCreated(old(State()), nodeType)
      ensures Stored(old(State()), State(), AstNode(nodeId, nodeType, [], [])) && nextNodeId == old(nextNodeId) + 1
      ensures old(Consistent(State())) ==> Consistent(State()) && nodeId !in old(nodeMap)
    {
      hide Targets, Consistent, Stored;
      NodeMeans(State(), AstNode(nextNodeId, nodeType, [], []));
      if Consistent(State()) { CreateKeeps(State(), nodeType); }
      nodeId := nextNodeId;
      nextNodeId := nextNodeId + 1;
      nodeMap := nodeMap[nodeId := |nodes|];
      nodes := nodes + [AstNode(nodeId, nodeType, [], [])];
      if nodeType.Object? {
        objectMap := objectMap[nodeType.objectId := nodeId];
      }
    }

    method AddNode(node: AstNode) returns (nodeId: NodeId)
      modifies this
      ensures nodeId == node.id && State() == NodeAdded(old(State()), node)
      ensures Stored(old(State()), State(), node)
      ensures old(Consistent(State())) ==>
        (Consistent(State()) <==> node.id !in old(nodeMap) && node.children == [] && node.references == [])
    {
      hide Targets, Consistent, Stored;
      NodeMeans(State(), node);
      if Consistent(State()) { AddNodeExactly(State(), node); }
      nodeId := node.id;
      nodeMap := nodeMap[nodeId := |nodes|];
      nodes := nodes + [node];
      if node.nodeType.Object? {
        objectMap := objectMap[node.nodeType.objectId := nodeId];
      }
      if nextNodeId <= nodeId {
        nextNodeId := nodeId + 1;
      }
    }

    method AddEdge(from: NodeId, to: NodeId, edgeType: EdgeType) returns (added: bool)
      modifies this
      ensures added == (from in old(nodeMap) && to in old(nodeMap))
      ensures State() == EdgeAdded(old(State()), from, to, edgeType)
      ensures if added then Linked(old(State()), State(), from, to, edgeType) else State() == old(State())
      ensures old(Consistent(State())) ==> Consistent(State())
      ensures old(Consistent(State())) && added ==> LinksGrow(old(State()), State(), from, to, edgeType)
    {
      hide Targets, Consistent, LinksGrow, Leads;
      EdgeMeans(State(), from, to, edgeType);
      if Consistent(State()) { EdgeKeeps(State(), from, to, edgeType); }
      if from in nodeMap && to in nodeMap {
        var fromIdx, toIdx := nodeMap[from], nodeMap[to];
        edges := edges + [Edge(fromIdx, toIdx, edgeType)];
        if fromIdx < |nodes| {
          nodes := nodes[fromIdx := Cached(nodes[fromIdx], edgeType, to)];
        }
        return true;
      }
      return false;
    }

    /** `get_children`: the targets of the node's child edges, and up to order what the node caches. */
    function GetChildren(id: NodeId): (r: seq<NodeId>)
      reads this
      ensures forall x :: x in r <==> id in nodeMap && Leads(State(), nodeMap[id], Child, x)
      ensures Consistent(State()) && id in nodeMap ==> multiset(r) == multiset(nodes[nodeMap[id]].children)
    {
      QueryMeans(State(), id, Child);
      if id in nodeMap then Targets(edges, nodes, nodeMap[id], Child) else []
    }

    /** `get_references`: the targets of the node's reference edges, and up to order what the node caches. */
    function GetReferences(id: NodeId): (r: seq<NodeId>)
      reads this
      ensures forall x :: x in r <==> id in nodeMap && Leads(State(), nodeMap[id], Reference, x)
      ensures Consistent(State()) && id in nodeMap ==> multiset(r) == multiset(nodes[nodeMap[id]].references)
    {
      QueryMeans(State(), id, Reference);
      if id in nodeMap then Targets(edges, nodes, nodeMap[id], Reference) else []
    }

    /** `get_parent`: the source of the newest child edge into the node. */
    method GetParent(id: NodeId) returns (r: Option<NodeId>)
      ensures r == ParentOf(State(), id)
      ensures forall p: NodeId :: r == Some(p) <==> IsParent(State(), id, p)
    {
      ParentExactly(State(), id);
      if id in nodeMap {
        var index := nodeMap[id];
        for n := |edges| downto 0
          invariant ParentFrom(State(), index, n) == ParentOf(State(), id)
        {
          var e := edges[n];
          if e.target == index && e.edgeType == Child && e.source < |nodes| {
            return Some(nodes[e.source].id);
          }
        }
      }
      return None;
    }
  }

  /** The query that the other modules reason with. */
  lemma ChildrenQueried(graph: PdfAstGraph, id: NodeId)
    ensures graph.GetChildren(id) == Children(graph.State(), id)
  {
    hide Targets, Consistent, Leads;
  }

  // ---------------------------------------------------------------- consistency

  /** The index is a bijection between ids and stored nodes, and no id has been given out from `nextNodeId` on. */
  ghost predicate Indexed(g: Graph) {
    && (forall id :: id in g.nodeMap ==> g.nodeMap[id] < |g.nodes| && g.nodes[g.nodeMap[id]].id == id)
    && (forall i :: 0 <= i < |g.nodes| ==> g.nodes[i].id in g.nodeMap && g.nodeMap[g.nodes[i].id] == i)
    && (forall id :: id in g.nodeMap ==> id < g.nextNodeId)
  }

  /** Every entry of the object index names a node of that object. */
  ghost predicate ObjectsFound(g: Graph) {
    forall o :: o in g.objectMap ==>
      g.objectMap[o] in g.nodeMap && g.nodeMap[g.objectMap[o]] < |g.nodes|
      && g.nodes[g.nodeMap[g.objectMap[o]]].nodeType == Object(o)
  }

  ghost predicate EdgesInside(edges: seq<Edge>, n: nat) {
    forall k :: 0 <= k < |edges| ==> edges[k].source < n && edges[k].target < n
  }

  ghost predicate CacheAgrees(g: Graph, i: nat)
    requires i < |g.nodes|
  {
    && multiset(g.nodes[i].children) == multiset(Targets(g.edges, g.nodes, i, Child))
    && multiset(g.nodes[i].references) == multiset(Targets(g.edges, g.nodes, i, Reference))
  }

  ghost predicate Consistent(g: Graph) {
    && Indexed(g) && ObjectsFound(g) && EdgesInside(g.edges, |g.nodes|)
    && forall i :: 0 <= i < |g.nodes| ==> CacheAgrees(g, i)
  }

  /** Targets depend on the ids of the stored nodes only. */
  lemma {:induction false} TargetsStable(edges: seq<Edge>, nodes: seq<AstNode>, more: seq<AstNode>, source: nat,
        edgeType: EdgeType)
    requires EdgesInside(edges, |nodes|) && |nodes| <= |more|
    requires forall i :: 0 <= i < |nodes| ==> more[i].id == nodes[i].id
    ensures Targets(edges, more, source, edgeType) == Targets(edges, nodes, source, edgeType)
  {
    if edges != [] {
      TargetsStable(edges[..|edges| - 1], nodes, more, source, edgeType);
    }
  }

  lemma {:induction false} NoTargets(edges: seq<Edge>, nodes: seq<AstNode>, source: nat, edgeType: EdgeType)
    requires EdgesInside(edges, source)
    ensures Targets(edges, nodes, source, edgeType) == []
  {
    if edges != [] {
      NoTargets(edges[..|edges| - 1], nodes, source, edgeType);
    }
  }

  lemma CachesAfterNode(g: Graph, node: AstNode, i: nat)
    requires EdgesInside(g.edges, |g.nodes|) && i <= |g.nodes|
    requires forall k :: 0 <= k < |g.nodes| ==> CacheAgrees(g, k)
    ensures CacheAgrees(NodeAdded(g, node), i) <==> i < |g.nodes| || (node.children == [] && node.references == [])
  {
    hide Targets;
    var next := NodeAdded(g, node);
    if i < |g.nodes| {
      assert CacheAgrees(g, i);
      TargetsStable(g.edges, g.nodes, next.nodes, i, Child);
      TargetsStable(g.edges, g.nodes, next.nodes, i, Reference);
    } else {
      NoTargets(g.edges, next.nodes, i, Child);
      NoTargets(g.edges, next.nodes, i, Reference);
      assert |multiset(node.children)| == |node.children| && |multiset(node.references)| == |node.references|;
    }
  }

  /** `add_node` keeps a graph consistent exactly when the id is new and the node brings no cached links. */
  lemma AddNodeExactly(g: Graph, node: AstNode)
    requires Consistent(g)
    ensures Consistent(NodeAdded(g, node)) <==> node.id !in g.nodeMap && node.children == [] && node.references == []
  {
    hide CacheAgrees;
    var next := NodeAdded(g, node);
    CachesAfterNode(g, node, |g.nodes|);
    if node.id in g.nodeMap {
      assert next.nodeMap[next.nodes[g.nodeMap[node.id]].id] == |g.nodes|;
      assert !Indexed(next);
    } else if node.children == [] && node.references == [] {
      forall i | 0 <= i < |next.nodes| ensures CacheAgrees(next, i) {
        CachesAfterNode(g, node, i);
      }
    }
  }

  lemma CreateKeeps(g: Graph, nodeType: NodeType)
    requires Consistent(g)
    ensures Consistent(NodeCreated(g, nodeType)) && g.nextNodeId !in g.nodeMap
  {
    hide CacheAgrees;
    AddNodeExactly(g, AstNode(g.nextNodeId, nodeType, [], []));
  }

  lemma TargetsAfterEdge(edges: seq<Edge>, e: Edge, nodes: seq<AstNode>, source: nat, edgeType: EdgeType)
    ensures Targets(edges + [e], nodes, source, edgeType) ==
      (if e.source == source && e.edgeType == edgeType && e.target < |nodes| then [nodes[e.target].id] else [])
      + Targets(edges, nodes, source, edgeType)
  {
    assert (edges + [e])[..|edges|] == edges;
  }

  lemma CachesAfterEdge(g: Graph, from: NodeId, to: NodeId, edgeType: EdgeType, i: nat)
    requires Consistent(g) && from in g.nodeMap && to in g.nodeMap && i < |g.nodes|
    ensures CacheAgrees(EdgeAdded(g, from, to, edgeType), i)
  {
    hide Targets;
    var next := EdgeAdded(g, from, to, edgeType);
    var e := Edge(g.nodeMap[from], g.nodeMap[to], edgeType);
    assert CacheAgrees(g, i);
    TargetsStable(g.edges, g.nodes, next.nodes, i, Child);
    TargetsStable(g.edges, g.nodes, next.nodes, i, Reference);
    TargetsAfterEdge(g.edges, e, next.nodes, i, Child);
    TargetsAfterEdge(g.edges, e, next.nodes, i, Reference);
  }

  lemma EdgeKeeps(g: Graph, from: NodeId, to: NodeId, edgeType: EdgeType)
    requires Consistent(g)
    ensures Consistent(EdgeAdded(g, from, to, edgeType))
  {
    hide CacheAgrees;
    if from in g.nodeMap && to in g.nodeMap {
      var next := EdgeAdded(g, from, to, edgeType);
      forall i | 0 <= i < |next.nodes| ensures CacheAgrees(next, i) {
        CachesAfterEdge(g, from, to, edgeType, i);
      }
    }
  }

  /** What `add_node` does to the stored nodes and the indexes. */
  lemma NodeMeans(g: Graph, node: AstNode)
    ensures Stored(g, NodeAdded(g, node), node)
  {
    hide Targets;
  }

  /** What `add_edge` does to the edges, the cached lists and the queries. */
  lemma EdgeMeans(g: Graph, from: NodeId, to: NodeId, edgeType: EdgeType)
    ensures var next := EdgeAdded(g, from, to, edgeType);
      if from in g.nodeMap && to in g.nodeMap then
        && Linked(g, next, from, to, edgeType)
        && (Consistent(g) ==> LinksGrow(g, next, from, to, edgeType))
      else next == g
  {
    hide LinksGrow, Consistent;
    if from in g.nodeMap && to in g.nodeMap && Consistent(g) {
      LinksGrown(g, EdgeAdded(g, from, to, edgeType), from, to, edgeType);
    }
  }

  lemma LinksGrown(g: Graph, next: Graph, from: NodeId, to: NodeId, edgeType: EdgeType)
    requires Consistent(g) && from in g.nodeMap && to in g.nodeMap && Linked(g, next, from, to, edgeType)
    ensures LinksGrow(g, next, from, to, edgeType)
  {
    hide Leads, Consistent, Linked, ChildrenGrow, ReferencesGrow;
    forall id, t, x | id in g.nodeMap && id in next.nodeMap
      ensures Leads(next, next.nodeMap[id], t, x) <==>
        Leads(g, g.nodeMap[id], t, x) || (id == from && t == edgeType && x == to)
    {
      LeadsGrown(g, next, from, to, edgeType, id, t, x);
    }
    forall id ensures ChildrenGrow(g, next, from, to, edgeType, id) && ReferencesGrow(g, next, from, to, edgeType, id) {
      ListsGrown(g, next, from, to, edgeType, id);
    }
  }

  lemma ListsGrown(g: Graph, next: Graph, from: NodeId, to: NodeId, edgeType: EdgeType, id: NodeId)
    requires Consistent(g) && from in g.nodeMap && to in g.nodeMap && Linked(g, next, from, to, edgeType)
    ensures ChildrenGrow(g, next, from, to, edgeType, id) && ReferencesGrow(g, next, from, to, edgeType, id)
  {
    hide Targets, Consistent, Linked;
    TargetsGrown(g, next, from, to, edgeType, id, Child);
    TargetsGrown(g, next, from, to, edgeType, id, Reference);
  }

  lemma TargetsGrown(g: Graph, next: Graph, from: NodeId, to: NodeId, edgeType: EdgeType, id: NodeId, t: EdgeType)
    requires Consistent(g) && from in g.nodeMap && to in g.nodeMap && Linked(g, next, from, to, edgeType)
    ensures next.nodeMap == g.nodeMap
    ensures id in g.nodeMap ==>
      multiset(Targets(next.edges, next.nodes, g.nodeMap[id], t)) ==
        multiset(Targets(g.edges, g.nodes, g.nodeMap[id], t)) +
          (if id == from && t == edgeType then multiset{to} else multiset{})
  {
    hide Targets, CacheAgrees;
    if id in g.nodeMap {
      var e := Edge(g.nodeMap[from], g.nodeMap[to], edgeType);
      TargetsStable(g.edges, g.nodes, next.nodes, g.nodeMap[id], t);
      TargetsAfterEdge(g.edges, e, next.nodes, g.nodeMap[id], t);
    }
  }

  lemma LeadsGrown(g: Graph, next: Graph, from: NodeId, to: NodeId, edgeType: EdgeType, id: NodeId, t: EdgeType,
        x: NodeId)
    requires Consistent(g) && from in g.nodeMap && to in g.nodeMap && Linked(g, next, from, to, edgeType)
    requires id in g.nodeMap && id in next.nodeMap
    ensures Leads(next, next.nodeMap[id], t, x) <==>
      Leads(g, g.nodeMap[id], t, x) || (id == from && t == edgeType && x == to)
  {
    hide Targets, CacheAgrees;
    TargetsGrown(g, next, from, to, edgeType, id, t);
    TargetsExactly(next.edges, next.nodes, g.nodeMap[id], t, x);
    TargetsExactly(g.edges, g.nodes, g.nodeMap[id], t, x);
    assert x in Targets(next.edges, next.nodes, g.nodeMap[id], t) <==>
      x in multiset(Targets(next.edges, next.nodes, g.nodeMap[id], t));
    assert x in Targets(g.edges, g.nodes, g.nodeMap[id], t) <==>
      x in multiset(Targets(g.edges, g.nodes, g.nodeMap[id], t));
  }

  // ---------------------------------------------------------------- all runs

  datatype Operation = CreateNode(nodeType: NodeType) | AddNode(node: AstNode) | AddEdge(from: NodeId, to: NodeId,
    edgeType: EdgeType)

  function Applied(g: Graph, op: Operation): Graph {
    match op
    case CreateNode(nodeType) => NodeCreated(g, nodeType)
    case AddNode(node) => NodeAdded(g, node)
    case AddEdge(from, to, edgeType) => EdgeAdded(g, from, to, edgeType)
  }

  /** The graph after a run of operations on a new graph. */
  function After(ops: seq<Operation>): Graph {
    if ops == [] then NOTHING else Applied(After(ops[..|ops| - 1]), ops[|ops| - 1])
  }

  /** Every node added from outside has a new id and no cached links. */
  predicate Disciplined(ops: seq<Operation>) {
    ops == [] || (
      var last := ops[|ops| - 1];
      && Disciplined(ops[..|ops| - 1])
      && (last.AddNode? ==>
            last.node.id !in After(ops[..|ops| - 1]).nodeMap && last.node.children == [] && last.node.references == []))
  }

  /** Every disciplined run leaves the graph consistent. */
  lemma {:induction false} RunsConsistent(ops: seq<Operation>)
    requires Disciplined(ops)
    ensures Consistent(After(ops))
  {
    hide Consistent, NodeAdded, NodeCreated, EdgeAdded;
    if ops == [] {
      NothingConsistent();
    } else {
      var g, last := After(ops[..|ops| - 1]), ops[|ops| - 1];
      RunsConsistent(ops[..|ops| - 1]);
      match last
      case CreateNode(nodeType) => CreateKeeps(g, nodeType);
      case AddNode(node) => AddNodeExactly(g, node);
      case AddEdge(from, to, edgeType) => EdgeKeeps(g, from, to, edgeType);
    }
  }

  /** Operation `i` of a run links two nodes known by then. */
  predicate LinkedAt(ops: seq<Operation>, i: nat, from: NodeId, edgeType: EdgeType, to: NodeId)
    requires i < |ops|
  {
    ops[i] == AddEdge(from, to, edgeType) && from in After(ops[..i]).nodeMap && to in After(ops[..i]).nodeMap
  }

  ghost predicate LinkedSome(ops: seq<Operation>, from: NodeId, edgeType: EdgeType, to: NodeId) {
    exists i :: 0 <= i < |ops| && LinkedAt(ops, i, from, edgeType, to)
  }

  lemma LinkedLast(ops: seq<Operation>, from: NodeId, edgeType: EdgeType, to: NodeId)
    requires ops != []
    ensures LinkedSome(ops, from, edgeType, to) <==>
      LinkedSome(ops[..|ops| - 1], from, edgeType, to) || LinkedAt(ops, |ops| - 1, from, edgeType, to)
  {
    hide After;
    var front := ops[..|ops| - 1];
    forall i | 0 <= i < |front|
      ensures LinkedAt(ops, i, from, edgeType, to) <==> LinkedAt(front, i, from, edgeType, to)
    {
      assert front[..i] == ops[..i];
    }
  }

  lemma NodeKeepsLinks(g: Graph, node: AstNode, id: NodeId, t: EdgeType, x: NodeId)
    requires Consistent(g) && node.id !in g.nodeMap
    ensures var next := NodeAdded(g, node);
      && id in next.nodeMap && (id in g.nodeMap || id == node.id)
      ==> (Leads(next, next.nodeMap[id], t, x) <==> id in g.nodeMap && Leads(g, g.nodeMap[id], t, x))
  {
    hide Targets, CacheAgrees, ObjectsFound;
    var next := NodeAdded(g, node);
    if id in next.nodeMap {
      forall k | 0 <= k < |g.edges|
        ensures EdgeTo(next.edges[k], next.nodes, next.nodeMap[id], t, x) <==>
          id in g.nodeMap && EdgeTo(g.edges[k], g.nodes, g.nodeMap[id], t, x)
      {
      }
    }
  }

  /** The links of a disciplined run are exactly those it has added between nodes known at the time, each kept to the
      end. */
  lemma {:induction false} RunLinksExactly(ops: seq<Operation>, id: NodeId, t: EdgeType, x: NodeId)
    requires Disciplined(ops)
    ensures var g := After(ops);
      id in g.nodeMap && Leads(g, g.nodeMap[id], t, x) <==> LinkedSome(ops, id, t, x)
  {
    hide Consistent, NodeAdded, NodeCreated, EdgeAdded, Leads, LinkedSome, Linked, LinkedAt;
    if ops == [] {
      NothingLinked(id, t, x);
    } else {
      var front, last := ops[..|ops| - 1], ops[|ops| - 1];
      var g := After(front);
      RunsConsistent(front);
      RunLinksExactly(front, id, t, x);
      LinkedLast(ops, id, t, x);
      LinkedNow(ops, id, t, x);
      match last
      case CreateNode(nodeType) =>
        CreateKeeps(g, nodeType);
        NodeStored(g, AstNode(g.nextNodeId, nodeType, [], []), id);
        NodeKeepsLinks(g, AstNode(g.nextNodeId, nodeType, [], []), id, t, x);
        CreatedIs(g, nodeType);
      case AddNode(node) =>
        NodeStored(g, node, id);
        NodeKeepsLinks(g, node, id, t, x);
      case AddEdge(from, to, edgeType) =>
        EdgeMeans(g, from, to, edgeType);
        if from in g.nodeMap && to in g.nodeMap {
          LinkedMeans(g, EdgeAdded(g, from, to, edgeType), from, to, edgeType);
        }
    }
  }

  lemma LinkedMeans(g: Graph, next: Graph, from: NodeId, to: NodeId, edgeType: EdgeType)
    requires from in g.nodeMap && to in g.nodeMap && Linked(g, next, from, to, edgeType)
    ensures next.nodeMap == g.nodeMap
  {
  }

  lemma LinkedNow(ops: seq<Operation>, from: NodeId, edgeType: EdgeType, to: NodeId)
    requires ops != []
    ensures LinkedAt(ops, |ops| - 1, from, edgeType, to) <==>
      ops[|ops| - 1] == AddEdge(from, to, edgeType)
      && from in After(ops[..|ops| - 1]).nodeMap && to in After(ops[..|ops| - 1]).nodeMap
  {
    hide After;
  }

  lemma CreatedIs(g: Graph, nodeType: NodeType)
    ensures NodeCreated(g, nodeType) == NodeAdded(g, AstNode(g.nextNodeId, nodeType, [], []))
  {
  }

  lemma NodeStored(g: Graph, node: AstNode, id: NodeId)
    ensures id in NodeAdded(g, node).nodeMap <==> id in g.nodeMap || id == node.id
  {
  }

  lemma NothingLinked(id: NodeId, t: EdgeType, x: NodeId)
    ensures !LinkedSome([], id, t, x) && id !in After([]).nodeMap
  {
  }

  lemma NothingConsistent()
    ensures Consistent(NOTHING)
  {
  }

  /** In a consistent graph the cached lists are what the edge queries return, up to order. */
  lemma CachesAnswerQueries(g: Graph, id: NodeId)
    requires Consistent(g) && id in g.nodeMap
    ensures NodeOf(g, id).Some? && NodeOf(g, id).value.id == id
    ensures multiset(NodeOf(g, id).value.children) == multiset(Children(g, id))
    ensures multiset(NodeOf(g, id).value.references) == multiset(References(g, id))
  {
    hide Targets;
    assert CacheAgrees(g, g.nodeMap[id]);
  }

  /** Looking up an object finds the node added last for it; other objects are found as before. */
  lemma ObjectLookup(g: Graph, node: AstNode, objectId: ObjectId)
    requires Consistent(g) && node.id !in g.nodeMap
    ensures NodeByObject(NodeAdded(g, node), objectId) ==
      if node.nodeType == Object(objectId) then Some(node) else NodeByObject(g, objectId)
  {
    hide Targets;
  }

  /** Children are stored nodes. */
  lemma {:induction false} TargetsStored(edges: seq<Edge>, nodes: seq<AstNode>, source: nat, edgeType: EdgeType,
        x: NodeId)
    requires x in Targets(edges, nodes, source, edgeType)
    ensures exists i :: 0 <= i < |nodes| && nodes[i].id == x
  {
    var last := edges[|edges| - 1];
    if x in Targets(edges[..|edges| - 1], nodes, source, edgeType) {
      TargetsStored(edges[..|edges| - 1], nodes, source, edgeType, x);
    } else {
      assert nodes[last.target].id == x;
    }
  }

  /** Some edge of the type leads from a position to a node with the id `x`. */
  ghost predicate Leads(g: Graph, source: nat, edgeType: EdgeType, x: NodeId) {
    exists k :: 0 <= k < |g.edges| && EdgeTo(g.edges[k], g.nodes, source, edgeType, x)
  }

  predicate EdgeTo(e: Edge, nodes: seq<AstNode>, source: nat, edgeType: EdgeType, x: NodeId) {
    e.source == source && e.edgeType == edgeType && e.target < |nodes| && nodes[e.target].id == x
  }

  lemma {:induction false} TargetsExactly(edges: seq<Edge>, nodes: seq<AstNode>, source: nat, edgeType: EdgeType,
        x: NodeId)
    ensures x in Targets(edges, nodes, source, edgeType) <==>
      exists k :: 0 <= k < |edges| && EdgeTo(edges[k], nodes, source, edgeType, x)
  {
    if edges != [] {
      var n := |edges| - 1;
      TargetsExactly(edges[..n], nodes, source, edgeType, x);
      assert forall k :: 0 <= k < n ==> edges[..n][k] == edges[k];
    }
  }

  lemma QueryMeans(g: Graph, id: NodeId, edgeType: EdgeType)
    requires edgeType == Child || edgeType == Reference
    ensures id in g.nodeMap ==>
      forall x :: x in Targets(g.edges, g.nodes, g.nodeMap[id], edgeType) <==> Leads(g, g.nodeMap[id], edgeType, x)
    ensures Consistent(g) && id in g.nodeMap ==>
      && g.nodeMap[id] < |g.nodes|
      && multiset(Targets(g.edges, g.nodes, g.nodeMap[id], edgeType)) ==
         multiset(if edgeType == Child then g.nodes[g.nodeMap[id]].children else g.nodes[g.nodeMap[id]].references)
  {
    hide Targets;
    if id in g.nodeMap {
      forall x ensures x in Targets(g.edges, g.nodes, g.nodeMap[id], edgeType) <==> Leads(g, g.nodeMap[id], edgeType,
        x) {
        TargetsExactly(g.edges, g.nodes, g.nodeMap[id], edgeType, x);
      }
      if Consistent(g) {
        assert CacheAgrees(g, g.nodeMap[id]);
      }
    }
  }

  lemma {:induction false} ParentFound(g: Graph, target: nat, n: nat) returns (k: nat)
    requires n <= |g.edges| && ParentFrom(g, target, n).Some?
    ensures k < n && g.edges[k].target == target && g.edges[k].edgeType == Child && g.edges[k].source < |g.nodes|
    ensures ParentFrom(g, target, n) == Some(g.nodes[g.edges[k].source].id)
  {
    var e := g.edges[n - 1];
    if e.target == target && e.edgeType == Child && e.source < |g.nodes| {
      k := n - 1;
    } else {
      k := ParentFound(g, target, n - 1);
    }
  }

  lemma {:induction false} ParentMissed(g: Graph, target: nat, n: nat, k: nat)
    requires k < n <= |g.edges| && ParentFrom(g, target, n).None?
    ensures !(g.edges[k].target == target && g.edges[k].edgeType == Child && g.edges[k].source < |g.nodes|)
  {
    if k < n - 1 { ParentMissed(g, target, n - 1, k); }
  }

  /** In a consistent graph a node has a parent exactly when it is some node's child, and it is its parent's child. */
  lemma ParentsAndChildren(g: Graph, id: NodeId, p: NodeId)
    requires Consistent(g) && id in g.nodeMap
    ensures ParentOf(g, id) == Some(p) ==> id in Children(g, p)
    ensures id in Children(g, p) ==> ParentOf(g, id).Some?
  {
    hide Targets, CacheAgrees, ParentFrom;
    var target := g.nodeMap[id];
    if ParentOf(g, id) == Some(p) {
      var k := ParentFound(g, target, |g.edges|);
      TargetsExactly(g.edges, g.nodes, g.edges[k].source, Child, id);
    }
    if id in Children(g, p) && ParentOf(g, id).None? {
      TargetsExactly(g.edges, g.nodes, g.nodeMap[p], Child, id);
      var k :| 0 <= k < |g.edges| && EdgeTo(g.edges[k], g.nodes, g.nodeMap[p], Child, id);
      ParentMissed(g, target, |g.edges|, k);
      assert false;
    }
  }
}
