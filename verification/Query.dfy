/** The descendant worklist and the set-forming selectors of `QueryEngine` (src/api/mod.rs). */
module Query {
  import opened Bits
  import opened AstGraph

  // ---------------------------------------------------------------- reachability

  /** Consecutive nodes of `p` are joined by child edges. */
  ghost predicate IsPath(g: Graph, p: seq<NodeId>) {
    forall i :: 0 <= i < |p| - 1 ==> p[i + 1] in Children(g, p[i])
  }

  ghost predicate Joins(g: Graph, p: seq<NodeId>, from: NodeId, to: NodeId) {
    |p| >= 2 && IsPath(g, p) && p[0] == from && p[|p| - 1] == to
  }

  /** `to` can be reached from `from` by one or more child edges. */
  ghost predicate Reaches(g: Graph, from: NodeId, to: NodeId) {
    exists p :: Joins(g, p, from, to)
  }

  lemma ReachesChild(g: Graph, from: NodeId, to: NodeId)
    requires to in Children(g, from)
    ensures Reaches(g, from, to)
  {
    hide Children;
    var p := [from, to];
    assert Joins(g, p, from, to);
  }

  lemma ReachesOn(g: Graph, from: NodeId, via: NodeId, to: NodeId)
    requires Reaches(g, from, via) && to in Children(g, via)
    ensures Reaches(g, from, to)
  {
    hide Children;
    var p :| Joins(g, p, from, via);
    var q := p + [to];
    assert forall i :: 0 <= i < |p| ==> q[i] == p[i];
    assert Joins(g, q, from, to);
  }

  /** A set that holds `from` and the children of its members holds all that `from` reaches. */
  lemma {:induction false} ClosedHolds(g: Graph, closed: set<NodeId>, p: seq<NodeId>, n: nat)
    requires forall v, c :: v in closed && c in Children(g, v) ==> c in closed
    requires n < |p| && IsPath(g, p) && p[0] in closed
    ensures p[n] in closed
  {
    hide Children;
    if n > 0 {
      ClosedHolds(g, closed, p, n - 1);
      assert p[(n - 1) + 1] in Children(g, p[n - 1]);
    }
  }

  // ---------------------------------------------------------------- the worklist

  function AllIds(g: Graph): set<NodeId> {
    set i | 0 <= i < |g.nodes| :: g.nodes[i].id
  }

  lemma ChildrenStored(g: Graph, v: NodeId)
    ensures forall c :: c in Children(g, v) ==> c in AllIds(g)
  {
    hide Targets;
    forall c | c in Children(g, v) ensures c in AllIds(g) {
      TargetsStored(g.edges, g.nodes, g.nodeMap[v], Child, c);
    }
  }

  /** The children of a list of nodes, one list after the other. */
  function ChildrenOfAll(g: Graph, vs: seq<NodeId>): seq<NodeId> {
    if vs == [] then [] else ChildrenOfAll(g, vs[..|vs| - 1]) + Children(g, vs[|vs| - 1])
  }

  lemma ChildrenOfMore(g: Graph, vs: seq<NodeId>, v: NodeId)
    ensures ChildrenOfAll(g, vs + [v]) == ChildrenOfAll(g, vs) + Children(g, v)
  {
    hide Children;
    assert (vs + [v])[..|vs|] == vs;
  }

  ghost predicate Distinct(vs: seq<NodeId>) {
    forall i, j :: 0 <= i < j < |vs| ==> vs[i] != vs[j]
  }

  /** What the worklist maintains: everything found is reachable, and what has been visited has its children
      among the results and either visited or waiting. */
  ghost predicate Found(g: Graph, node: NodeId, visited: set<NodeId>, toVisit: seq<NodeId>, found: seq<NodeId>) {
    && (forall x :: x in found ==> Reaches(g, node, x))
    && (forall x :: x in visited || x in toVisit ==> x == node || Reaches(g, node, x))
    && (node in visited || node in toVisit)
    && (forall v, c :: v in visited && c in Children(g, v) ==> c in found && (c in visited || c in toVisit))
  }

  lemma SkipKeeps(g: Graph, node: NodeId, visited: set<NodeId>, toVisit: seq<NodeId>, found: seq<NodeId>)
    requires toVisit != [] && Found(g, node, visited, toVisit, found) && toVisit[|toVisit| - 1] in visited
    ensures Found(g, node, visited, toVisit[..|toVisit| - 1], found)
  {
    hide Children, Reaches;
    var n := |toVisit| - 1;
    assert toVisit == toVisit[..n] + [toVisit[n]];
  }

  lemma VisitKeeps(g: Graph, node: NodeId, visited: set<NodeId>, toVisit: seq<NodeId>, found: seq<NodeId>)
    requires toVisit != [] && Found(g, node, visited, toVisit, found)
    ensures var n := |toVisit| - 1;
      var v := toVisit[n];
      Found(g, node, visited + {v}, toVisit[..n] + Children(g, v), found + Children(g, v))
  {
    hide Children, Reaches;
    var n := |toVisit| - 1;
    var v := toVisit[n];
    assert toVisit == toVisit[..n] + [v];
    forall c | c in Children(g, v) ensures Reaches(g, node, c) {
      if v == node { ReachesChild(g, node, c); } else { ReachesOn(g, node, v, c); }
    }
  }

  lemma FoundAll(g: Graph, node: NodeId, visited: set<NodeId>, found: seq<NodeId>, x: NodeId)
    requires Found(g, node, visited, [], found) && Reaches(g, node, x)
    ensures x in found && x in visited
  {
    hide Children;
    var p :| Joins(g, p, node, x);
    ClosedHolds(g, visited, p, |p| - 2);
    assert p[(|p| - 2) + 1] in Children(g, p[|p| - 2]);
  }

  /** `get_all_descendants`: on every graph, cyclic or not, it ends and returns exactly the nodes reachable by
      one or more child edges; it lists the children of `node` and of each of those nodes once. */
  method GetAllDescendants(graph: PdfAstGraph, node: NodeId) returns (descendants: seq<NodeId>,
        ghost order: seq<NodeId>)
    ensures forall x :: x in descendants <==> Reaches(graph.State(), node, x)
    ensures descendants == ChildrenOfAll(graph.State(), order)
    ensures Distinct(order) && forall x :: x in order <==> x == node || Reaches(graph.State(), node, x)
  {
    hide Children, Reaches, Found, AllIds, ChildrenOfAll;
    ghost var g := graph.State();
    ghost var universe := AllIds(g) + {node};
    descendants := [];
    var toVisit := [node];
    var visited: set<NodeId> := {};
    order := [];
    FoundStart(g, node);
    while toVisit != []
      invariant Found(g, node, visited, toVisit, descendants)
      invariant visited <= universe && forall x :: x in toVisit ==> x in universe
      invariant descendants == ChildrenOfAll(g, order)
      invariant Distinct(order) && forall x :: x in order <==> x in visited
      decreases universe - visited, |toVisit|
    {
      var n := |toVisit| - 1;
      var current := toVisit[n];
      assert current in universe;
      if current !in visited {
        VisitKeeps(g, node, visited, toVisit, descendants);
        ChildrenStored(g, current);
        ChildrenOfMore(g, order, current);
        visited := visited + {current};
        order := order + [current];
        ChildrenQueried(graph, current);
        var children := graph.GetChildren(current);
        descendants := descendants + children;
        toVisit := toVisit[..n] + children;
      } else {
        SkipKeeps(g, node, visited, toVisit, descendants);
        toVisit := toVisit[..n];
      }
    }
    forall x ensures x in descendants <==> Reaches(g, node, x)
      ensures x in visited <==> x == node || Reaches(g, node, x)
    {
      FoundMeans(g, node, visited, descendants, x);
      if Reaches(g, node, x) { FoundAll(g, node, visited, descendants, x); }
    }
  }

  lemma FoundStart(g: Graph, node: NodeId)
    ensures Found(g, node, {}, [node], []) && ChildrenOfAll(g, []) == []
  {
  }

  lemma FoundMeans(g: Graph, node: NodeId, visited: set<NodeId>, found: seq<NodeId>, x: NodeId)
    requires Found(g, node, visited, [], found)
    ensures x in found ==> Reaches(g, node, x)
    ensures x in visited ==> x == node || Reaches(g, node, x)
    ensures node in visited
  {
  }

  // ---------------------------------------------------------------- selectors

  /** The selectors that form sets of nodes, whatever the context. */
  datatype Selector =
    | ByType(nodeType: NodeType)
    | ByObject(objectId: ObjectId)
    | ChildOf(parent: Selector, kept: Selector)
    | DescendantOf(ancestor: Selector, descendant: Selector)
    | ParentOf(child: Selector)
    | SiblingOf(sibling: Selector)
    | And(all: seq<Selector>)
    | Or(any: seq<Selector>)
    | Not(excluded: Selector)

  predicate HasType(g: Graph, id: NodeId, nodeType: NodeType) {
    NodeOf(g, id).Some? && NodeOf(g, id).value.nodeType == nodeType
  }

  /** Another child of the same parent. */
  predicate Siblings(g: Graph, a: NodeId, x: NodeId) {
    x != a && AstGraph.ParentOf(g, a).Some? && x in Children(g, AstGraph.ParentOf(g, a).value)
  }

  /** The nodes a selector stands for. */
  ghost predicate Selects(g: Graph, s: Selector, x: NodeId)
    decreases s, 0
  {
    match s
    case ByType(t) => HasType(g, x, t)
    case ByObject(o) => HasType(g, x, Object(o))
    case ChildOf(parent, kept) => Selects(g, kept, x) && exists a :: Selects(g, parent, a) && x in Children(g, a)
    case DescendantOf(ancestor, descendant) =>
      Selects(g, descendant, x) && exists a :: Selects(g, ancestor, a) && Reaches(g, a, x)
    case ParentOf(child) => exists a :: Selects(g, child, a) && AstGraph.ParentOf(g, a) == Some(x)
    case SiblingOf(sibling) => exists a :: Selects(g, sibling, a) && Siblings(g, a, x)
    case And(all) => all != [] && SelectsAll(g, all, x)
    case Or(any) => SelectsAny(g, any, x)
    case Not(excluded) => x in g.nodeMap && !Selects(g, excluded, x)
  }

  ghost predicate SelectsAll(g: Graph, ss: seq<Selector>, x: NodeId)
    decreases ss, 0
  {
    ss == [] || (Selects(g, ss[0], x) && SelectsAll(g, ss[1..], x))
  }

  ghost predicate SelectsAny(g: Graph, ss: seq<Selector>, x: NodeId)
    decreases ss, 0
  {
    ss != [] && (Selects(g, ss[0], x) || SelectsAny(g, ss[1..], x))
  }

  /** A child edge leads from the node `a` to the node `x`. */
  ghost predicate ChildLink(g: Graph, a: NodeId, x: NodeId) {
    a in g.nodeMap && exists k ::
      && 0 <= k < |g.edges| && g.edges[k].source == g.nodeMap[a] && g.edges[k].edgeType == Child
      && g.edges[k].target < |g.nodes| && g.nodes[g.edges[k].target].id == x
  }

  ghost predicate OfType(g: Graph, x: NodeId, t: NodeType) {
    x in g.nodeMap && g.nodeMap[x] < |g.nodes| && g.nodes[g.nodeMap[x]].nodeType == t
  }

  lemma ChildrenAreLinks(g: Graph)
    ensures forall a, x :: x in Children(g, a) <==> ChildLink(g, a, x)
  {
    hide Targets;
    forall a, x ensures x in Children(g, a) <==> ChildLink(g, a, x) {
      if a in g.nodeMap {
        TargetsExactly(g.edges, g.nodes, g.nodeMap[a], Child, x);
        if k :| 0 <= k < |g.edges| && EdgeTo(g.edges[k], g.nodes, g.nodeMap[a], Child, x) {
          assert ChildLink(g, a, x);
        }
        if ChildLink(g, a, x) {
          var k :| 0 <= k < |g.edges| && g.edges[k].source == g.nodeMap[a] && g.edges[k].edgeType == Child
            && g.edges[k].target < |g.nodes| && g.nodes[g.edges[k].target].id == x;
          assert EdgeTo(g.edges[k], g.nodes, g.nodeMap[a], Child, x);
        }
      }
    }
  }

  /** What the selectors stand for, in stored nodes and edges. */
  lemma TypesExactly(g: Graph, t: NodeType, o: ObjectId, x: NodeId)
    ensures Selects(g, ByType(t), x) <==> OfType(g, x, t)
    ensures Selects(g, ByObject(o), x) <==> OfType(g, x, Object(o))
  {
  }

  lemma ChildExactly(g: Graph, parent: Selector, kept: Selector, x: NodeId)
    ensures Selects(g, ChildOf(parent, kept), x) <==>
      Selects(g, kept, x) && exists a :: Selects(g, parent, a) && ChildLink(g, a, x)
  {
    hide Selects, Children, ChildLink;
    ChildrenAreLinks(g);
    ChildMeans(g, ChildOf(parent, kept), x);
  }

  lemma ParentsExactly(g: Graph, child: Selector, x: NodeId)
    ensures Selects(g, Selector.ParentOf(child), x) <==> exists a :: Selects(g, child, a) && IsParent(g, a, x)
  {
    hide Selects, AstGraph.ParentOf, IsParent;
    ParentMeans(g, Selector.ParentOf(child), x);
    forall a: NodeId ensures AstGraph.ParentOf(g, a) == Some(x) <==> IsParent(g, a, x) { ParentExactly(g, a); }
  }

  lemma SiblingsExactly(g: Graph, sibling: Selector, x: NodeId)
    ensures Selects(g, SiblingOf(sibling), x) <==>
      exists a, p: NodeId :: Selects(g, sibling, a) && x != a && IsParent(g, a, p) && ChildLink(g, p, x)
  {
    hide Selects, Siblings, IsParent, ChildLink;
    SiblingMeans(g, SiblingOf(sibling), x);
    forall a ensures Siblings(g, a, x) <==> x != a && exists p: NodeId :: IsParent(g, a, p) && ChildLink(g, p, x) {
      OneSibling(g, a, x);
    }
  }

  lemma OneSibling(g: Graph, a: NodeId, x: NodeId)
    ensures Siblings(g, a, x) <==> x != a && exists p: NodeId :: IsParent(g, a, p) && ChildLink(g, p, x)
  {
    hide AstGraph.ParentOf, Children, IsParent, ChildLink;
    ChildrenAreLinks(g);
    ParentExactly(g, a);
    if Siblings(g, a, x) {
      assert IsParent(g, a, AstGraph.ParentOf(g, a).value);
    }
    if p: NodeId :| IsParent(g, a, p) && ChildLink(g, p, x) {
      assert AstGraph.ParentOf(g, a) == Some(p);
    }
  }

  /** A path of child edges. */
  lemma ReachesExactly(g: Graph, from: NodeId, to: NodeId)
    ensures Reaches(g, from, to) <==> exists p: seq<NodeId> ::
      |p| >= 2 && p[0] == from && p[|p| - 1] == to && forall i :: 0 <= i < |p| - 1 ==> ChildLink(g, p[i], p[i + 1])
  {
    hide Children, ChildLink;
    ChildrenAreLinks(g);
    if Reaches(g, from, to) {
      var p :| Joins(g, p, from, to);
      assert forall i :: 0 <= i < |p| - 1 ==> ChildLink(g, p[i], p[i + 1]);
    }
    if p: seq<NodeId> :|
      |p| >= 2 && p[0] == from && p[|p| - 1] == to && forall i :: 0 <= i < |p| - 1 ==> ChildLink(g, p[i], p[i + 1])
    {
      assert Joins(g, p, from, to);
    }
  }

  /** `into_iter().collect()` of a set, in no particular order. */
  method Listed(s: set<NodeId>) returns (r: seq<NodeId>)
    ensures forall x :: x in r <==> x in s
    ensures Distinct(r)
  {
    r := [];
    var rest := s;
    while rest != {}
      invariant rest <= s && Distinct(r)
      invariant forall x :: x in r <==> x in s - rest
      decreases rest
    {
      var x :| x in rest;
      assert forall i :: 0 <= i < |r| ==> r[i] in r && r[i] != x;
      rest := rest - {x};
      r := r + [x];
    }
  }

  /** `find_by_type`, and `find_by_object_id` through the object's node type. */
  method FindByType(graph: PdfAstGraph, nodeType: NodeType) returns (r: seq<NodeId>)
    ensures Distinct(r) && forall x :: x in r <==> HasType(graph.State(), x, nodeType)
  {
    var found := set id | id in graph.nodeMap && graph.nodeMap[id] < |graph.nodes|
                          && graph.nodes[graph.nodeMap[id]].nodeType == nodeType;
    r := Listed(found);
  }

  /** The members of `candidates` that the selector keeps, as the inner loop of `Child` and `Descendant` finds them. */
  method Kept(graph: PdfAstGraph, candidates: seq<NodeId>, selector: Selector) returns (r: seq<NodeId>)
    ensures forall x :: x in r <==> x in candidates && Selects(graph.State(), selector, x)
    decreases selector, 2
  {
    hide Selects;
    r := [];
    for i := 0 to |candidates|
      invariant forall x :: x in r <==> x in candidates[..i] && Selects(graph.State(), selector, x)
    {
      var matches := EvaluateSelector(graph, selector);
      if candidates[i] in matches {
        r := r + [candidates[i]];
      }
      assert candidates[..i + 1] == candidates[..i] + [candidates[i]];
    }
    assert candidates[..|candidates|] == candidates;
  }

  lemma ChildMeans(g: Graph, s: Selector, x: NodeId)
    requires s.ChildOf?
    ensures Selects(g, s, x) <==> Selects(g, s.kept, x) && exists a :: Selects(g, s.parent, a) && x in Children(g, a)
  {
  }

  /** The `Child` arm. */
  method EvaluateChild(graph: PdfAstGraph, selector: Selector) returns (results: seq<NodeId>)
    requires selector.ChildOf?
    ensures forall x :: x in results <==> Selects(graph.State(), selector, x)
    decreases selector, 0
  {
    hide Selects, Children;
    ghost var g := graph.State();
    var parents := EvaluateSelector(graph, selector.parent);
    results := [];
    for i := 0 to |parents|
      invariant forall x :: x in results <==>
                              Selects(g, selector.kept, x) && exists k :: 0 <= k < i && x in Children(g, parents[k])
    {
      ChildrenQueried(graph, parents[i]);
      var kept := Kept(graph, graph.GetChildren(parents[i]), selector.kept);
      results := results + kept;
    }
    forall x ensures x in results <==> Selects(g, selector, x) {
      ChildMeans(g, selector, x);
      if x in results {
        var k :| 0 <= k < |parents| && x in Children(g, parents[k]);
        assert parents[k] in parents;
      }
      if Selects(g, selector, x) {
        var a :| Selects(g, selector.parent, a) && x in Children(g, a);
        assert a in parents;
      }
    }
  }

  lemma DescendantMeans(g: Graph, s: Selector, x: NodeId)
    requires s.DescendantOf?
    ensures Selects(g, s, x) <==>
      Selects(g, s.descendant, x) && exists a :: Selects(g, s.ancestor, a) && Reaches(g, a, x)
  {
  }

  /** The `Descendant` arm. */
  method EvaluateDescendant(graph: PdfAstGraph, selector: Selector) returns (results: seq<NodeId>)
    requires selector.DescendantOf?
    ensures forall x :: x in results <==> Selects(graph.State(), selector, x)
    decreases selector, 0
  {
    hide Selects, Reaches;
    ghost var g := graph.State();
    var ancestors := EvaluateSelector(graph, selector.ancestor);
    results := [];
    for i := 0 to |ancestors|
      invariant forall x :: x in results <==>
                              Selects(g, selector.descendant, x) &&
                                exists k :: 0 <= k < i && Reaches(g, ancestors[k], x)
    {
      var descendants, _ := GetAllDescendants(graph, ancestors[i]);
      var kept := Kept(graph, descendants, selector.descendant);
      results := results + kept;
    }
    forall x ensures x in results <==> Selects(g, selector, x) {
      DescendantMeans(g, selector, x);
      if x in results {
        var k :| 0 <= k < |ancestors| && Reaches(g, ancestors[k], x);
        assert ancestors[k] in ancestors;
      }
      if Selects(g, selector, x) {
        var a :| Selects(g, selector.ancestor, a) && Reaches(g, a, x);
        assert a in ancestors;
      }
    }
  }

  /** The `Parent` arm. */
  method EvaluateParent(graph: PdfAstGraph, selector: Selector) returns (r: seq<NodeId>)
    requires selector.ParentOf?
    ensures Distinct(r) && forall x :: x in r <==> Selects(graph.State(), selector, x)
    decreases selector, 0
  {
    hide Selects, AstGraph.ParentOf;
    ghost var g := graph.State();
    var children := EvaluateSelector(graph, selector.child);
    var results: set<NodeId> := {};
    for i := 0 to |children|
      invariant forall x :: x in results <==> exists k :: 0 <= k < i && AstGraph.ParentOf(g, children[k]) == Some(x)
    {
      var parent := graph.GetParent(children[i]);
      if parent.Some? {
        results := results + {parent.value};
      }
    }
    forall x ensures x in results <==> Selects(g, selector, x) {
      ParentMeans(g, selector, x);
      if x in results {
        var k :| 0 <= k < |children| && AstGraph.ParentOf(g, children[k]) == Some(x);
        assert children[k] in children;
      }
      if Selects(g, selector, x) {
        var a :| Selects(g, selector.child, a) && AstGraph.ParentOf(g, a) == Some(x);
        assert a in children;
      }
    }
    r := Listed(results);
  }

  lemma ParentMeans(g: Graph, s: Selector, x: NodeId)
    requires s.ParentOf?
    ensures Selects(g, s, x) <==> exists a :: Selects(g, s.child, a) && AstGraph.ParentOf(g, a) == Some(x)
  {
  }

  /** The `Sibling` arm. */
  method EvaluateSibling(graph: PdfAstGraph, selector: Selector) returns (r: seq<NodeId>)
    requires selector.SiblingOf?
    ensures Distinct(r) && forall x :: x in r <==> Selects(graph.State(), selector, x)
    decreases selector, 0
  {
    hide Selects, AstGraph.ParentOf, Children;
    ghost var g := graph.State();
    var found := EvaluateSelector(graph, selector.sibling);
    var results: set<NodeId> := {};
    for i := 0 to |found|
      invariant forall x :: x in results <==> exists k :: 0 <= k < i && Siblings(g, found[k], x)
    {
      var parent := graph.GetParent(found[i]);
      if parent.Some? {
        ChildrenQueried(graph, parent.value);
        results := results + set x | x in graph.GetChildren(parent.value) && x != found[i];
      }
    }
    forall x ensures x in results <==> Selects(g, selector, x) {
      SiblingMeans(g, selector, x);
      if x in results {
        var k :| 0 <= k < |found| && Siblings(g, found[k], x);
        assert found[k] in found;
      }
      if Selects(g, selector, x) {
        var a :| Selects(g, selector.sibling, a) && Siblings(g, a, x);
        assert a in found;
      }
    }
    r := Listed(results);
  }

  lemma SiblingMeans(g: Graph, s: Selector, x: NodeId)
    requires s.SiblingOf?
    ensures Selects(g, s, x) <==> exists a :: Selects(g, s.sibling, a) && Siblings(g, a, x)
  {
  }

  lemma {:induction false} AllMeans(g: Graph, ss: seq<Selector>, x: NodeId)
    ensures SelectsAll(g, ss, x) <==> forall k :: 0 <= k < |ss| ==> Selects(g, ss[k], x)
  {
    hide Selects;
    if ss != [] {
      AllMeans(g, ss[1..], x);
      assert forall k :: 1 <= k < |ss| ==> ss[k] == ss[1..][k - 1];
    }
  }

  lemma {:induction false} AnyMeans(g: Graph, ss: seq<Selector>, x: NodeId)
    ensures SelectsAny(g, ss, x) <==> exists k :: 0 <= k < |ss| && Selects(g, ss[k], x)
  {
    hide Selects;
    if ss != [] {
      AnyMeans(g, ss[1..], x);
      assert forall k :: 1 <= k < |ss| ==> ss[k] == ss[1..][k - 1];
    }
  }

  lemma ListsMean(g: Graph, ss: seq<Selector>, x: NodeId)
    ensures Selects(g, And(ss), x) <==> ss != [] && forall k :: 0 <= k < |ss| ==> Selects(g, ss[k], x)
    ensures Selects(g, Or(ss), x) <==> exists k :: 0 <= k < |ss| && Selects(g, ss[k], x)
  {
    hide SelectsAll, SelectsAny;
    AllMeans(g, ss, x);
    AnyMeans(g, ss, x);
  }

  /** The `And` arm: no selector selects nothing, else the intersection. */
  method EvaluateAnd(graph: PdfAstGraph, all: seq<Selector>) returns (r: seq<NodeId>)
    ensures forall x :: x in r <==> Selects(graph.State(), And(all), x)
    decreases all, 0
  {
    hide Selects;
    ghost var g := graph.State();
    forall x ensures Selects(g, And(all), x) <==> all != [] && forall k :: 0 <= k < |all| ==> Selects(g, all[k], x) {
      ListsMean(g, all, x);
    }
    if all == [] {
      return [];
    }
    var resultSet: Option<set<NodeId>> := None;
    for i := 0 to |all|
      invariant resultSet.None? <==> i == 0
      invariant resultSet.Some? ==>
                  forall x :: x in resultSet.value <==> forall k :: 0 <= k < i ==> Selects(g, all[k], x)
    {
      var found := EvaluateSelector(graph, all[i]);
      var matches := set x | x in found;
      resultSet := Some(if resultSet.None? then matches else resultSet.value * matches);
    }
    r := Listed(resultSet.value);
  }

  /** The `Or` arm: the union. */
  method EvaluateOr(graph: PdfAstGraph, any: seq<Selector>) returns (r: seq<NodeId>)
    ensures forall x :: x in r <==> Selects(graph.State(), Or(any), x)
    decreases any, 0
  {
    hide Selects;
    ghost var g := graph.State();
    forall x ensures Selects(g, Or(any), x) <==> exists k :: 0 <= k < |any| && Selects(g, any[k], x) {
      ListsMean(g, any, x);
    }
    var resultSet: set<NodeId> := {};
    for i := 0 to |any|
      invariant forall x :: x in resultSet <==> exists k :: 0 <= k < i && Selects(g, any[k], x)
    {
      var found := EvaluateSelector(graph, any[i]);
      resultSet := resultSet + set x | x in found;
    }
    r := Listed(resultSet);
  }

  /** `evaluate_selector`: the selected nodes and no others. */
  method EvaluateSelector(graph: PdfAstGraph, selector: Selector) returns (r: seq<NodeId>)
    ensures forall x :: x in r <==> Selects(graph.State(), selector, x)
    decreases selector, 1
  {
    match selector {
      case ByType(t) => r := FindByType(graph, t);
      case ByObject(o) => r := FindByType(graph, Object(o));
      case ChildOf(_, _) => r := EvaluateChild(graph, selector);
      case DescendantOf(_, _) => r := EvaluateDescendant(graph, selector);
      case ParentOf(_) => r := EvaluateParent(graph, selector);
      case SiblingOf(_) => r := EvaluateSibling(graph, selector);
      case And(all) => r := EvaluateAnd(graph, all);
      case Or(any) => r := EvaluateOr(graph, any);
      case Not(excluded) =>
        var out := EvaluateSelector(graph, excluded);
        r := Listed(graph.nodeMap.Keys - set x | x in out);
    }
  }

  // ---------------------------------------------------------------- laws

  /** In a consistent graph only nodes of the graph are selected. */
  lemma {:induction false} SelectedAreNodes(g: Graph, s: Selector, x: NodeId)
    requires Consistent(g) && Selects(g, s, x)
    ensures x in g.nodeMap
    decreases s
  {
    hide Consistent, Reaches, Children;
    match s
    case ByType(_) =>
    case ByObject(_) =>
    case ChildOf(_, kept) => SelectedAreNodes(g, kept, x);
    case DescendantOf(_, descendant) => SelectedAreNodes(g, descendant, x);
    case ParentOf(child) =>
      var a :| Selects(g, child, a) && AstGraph.ParentOf(g, a) == Some(x);
      ParentStored(g, a);
    case SiblingOf(sibling) =>
      var a :| Selects(g, sibling, a) && Siblings(g, a, x);
      ChildStored(g, AstGraph.ParentOf(g, a).value, x);
    case And(all) => SelectedAreNodes(g, all[0], x);
    case Or(any) =>
      ListsMean(g, any, x);
      var k :| 0 <= k < |any| && Selects(g, any[k], x);
      SelectedAreNodes(g, any[k], x);
    case Not(_) =>
  }

  lemma ParentStored(g: Graph, a: NodeId)
    requires Consistent(g) && AstGraph.ParentOf(g, a).Some?
    ensures AstGraph.ParentOf(g, a).value in g.nodeMap
  {
    hide CacheAgrees, ParentFrom;
    var k := ParentFound(g, g.nodeMap[a], |g.edges|);
  }

  lemma ChildStored(g: Graph, p: NodeId, x: NodeId)
    requires Consistent(g) && x in Children(g, p)
    ensures x in g.nodeMap
  {
    hide CacheAgrees, Targets;
    TargetsStored(g.edges, g.nodes, g.nodeMap[p], Child, x);
  }

  /** Complement is an involution. */
  lemma DoubleNegation(g: Graph, s: Selector, x: NodeId)
    requires Consistent(g)
    ensures Selects(g, Not(Not(s)), x) <==> Selects(g, s, x)
  {
    hide Consistent, Selects;
    NotMeans(g, s, x);
    NotMeans(g, Not(s), x);
    if Selects(g, s, x) { SelectedAreNodes(g, s, x); }
  }

  function Negated(ss: seq<Selector>): (r: seq<Selector>)
    ensures |r| == |ss|
  {
    seq(|ss|, i requires 0 <= i < |ss| => Not(ss[i]))
  }

  lemma NotMeans(g: Graph, s: Selector, x: NodeId)
    ensures Selects(g, Not(s), x) <==> x in g.nodeMap && !Selects(g, s, x)
  {
  }

  lemma NegatedMeans(g: Graph, ss: seq<Selector>, x: NodeId)
    ensures Selects(g, Not(Or(ss)), x) <==> x in g.nodeMap && forall k :: 0 <= k < |ss| ==> !Selects(g, ss[k], x)
    ensures Selects(g, And(Negated(ss)), x) <==>
      (ss != [] && x in g.nodeMap && forall k :: 0 <= k < |ss| ==> !Selects(g, ss[k], x))
  {
    hide Selects;
    ListsMean(g, ss, x);
    ListsMean(g, Negated(ss), x);
    NotMeans(g, Or(ss), x);
    forall k | 0 <= k < |ss|
      ensures Selects(g, Negated(ss)[k], x) <==> x in g.nodeMap && !Selects(g, ss[k], x)
    {
      NotMeans(g, ss[k], x);
    }
    if ss != [] {
      assert Selects(g, Negated(ss)[0], x) ==> x in g.nodeMap;
    }
  }

  /** The complement of a union is the intersection of the complements, except for the empty list,
      where one selects every node and the other none. */
  lemma DeMorgan(g: Graph, ss: seq<Selector>)
    ensures (forall x :: Selects(g, Not(Or(ss)), x) == Selects(g, And(Negated(ss)), x)) <==>
      ss != [] || g.nodeMap == map[]
  {
    hide Selects, Negated;
    forall x ensures Selects(g, Not(Or(ss)), x) == Selects(g, And(Negated(ss)), x) <==> ss != [] || x !in g.nodeMap {
      NegatedMeans(g, ss, x);
    }
    if ss == [] && g.nodeMap != map[] {
      var x :| x in g.nodeMap;
      assert Selects(g, Not(Or(ss)), x) != Selects(g, And(Negated(ss)), x);
    }
  }
}
