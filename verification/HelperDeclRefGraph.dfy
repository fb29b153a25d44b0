/**
 The reference graph of declarations in one translation unit, and what is reachable
 in it. A declaration stands for all its redeclarations.
 */
module HelperDeclRefGraph {
  datatype Decl = Decl(id: int)

  /** The graph as a value: the declarations that each node refers to. */
  type Edges = map<Decl, seq<Decl>>

  // ---------- Reachability ----------

  ghost predicate IsPath(edges: Edges, path: seq<Decl>) {
    && path != []
    && (forall i :: 0 <= i < |path| ==> path[i] in edges)
    && (forall i :: 0 <= i < |path| - 1 ==> path[i + 1] in edges[path[i]])
  }

  /** A path of references, possibly of length zero, leads from one node to another. */
  ghost predicate Reaches(edges: Edges, from: Decl, to: Decl) {
    exists path :: IsPath(edges, path) && path[0] == from && path[|path| - 1] == to
  }

  lemma ReachesItself(edges: Edges, d: Decl)
    requires d in edges
    ensures Reaches(edges, d, d)
  {
    assert IsPath(edges, [d]) && [d][0] == d;
  }

  lemma ReachesBefore(edges: Edges, a: Decl, b: Decl, c: Decl)
    requires a in edges && b in edges[a] && Reaches(edges, b, c)
    ensures Reaches(edges, a, c)
  {
    var path :| IsPath(edges, path) && path[0] == b && path[|path| - 1] == c;
    var longer := [a] + path;
    assert forall i :: 0 < i < |longer| ==> longer[i] == path[i - 1];
    assert IsPath(edges, longer);
  }

  lemma ReachesAfter(edges: Edges, a: Decl, b: Decl, c: Decl)
    requires Reaches(edges, a, b) && c in edges && c in edges[b]
    ensures Reaches(edges, a, c)
  {
    var path :| IsPath(edges, path) && path[0] == a && path[|path| - 1] == b;
    var longer := path + [c];
    assert IsPath(edges, longer) && longer[0] == a && longer[|longer| - 1] == c;
  }

  /** No reference leads out of the set. */
  ghost predicate IsClosed(edges: Edges, s: set<Decl>) {
    forall d, e :: d in s && d in edges && e in edges[d] ==> e in s
  }

  lemma {:induction false} PathStaysInside(edges: Edges, s: set<Decl>, path: seq<Decl>)
    requires IsClosed(edges, s) && IsPath(edges, path) && path[0] in s
    ensures path[|path| - 1] in s
  {
    if |path| > 1 {
      var i := |path| - 2;
      PathStaysInside(edges, s, path[..i + 1]);
      var d, e := path[i], path[i + 1];
      assert d in s && e in edges[d];
      assert e == path[|path| - 1];
    }
  }

  lemma ReachesInside(edges: Edges, s: set<Decl>, from: Decl, to: Decl)
    requires IsClosed(edges, s) && from in s && Reaches(edges, from, to)
    ensures to in s
  {
    var path :| IsPath(edges, path) && path[0] == from && path[|path| - 1] == to;
    PathStaysInside(edges, s, path);
  }

  /** The graph after a reference is recorded: none of a declaration to itself. */
  function WithNode(edges: Edges, d: Decl): Edges {
    if d in edges then edges else edges[d := []]
  }

  function WithEdge(edges: Edges, caller: Decl, callee: Decl): Edges {
    if caller == callee then edges
    else
      var nodes := WithNode(WithNode(edges, caller), callee);
      nodes[caller := nodes[caller] + [callee]]
  }

  /** One declaration refers to another. */
  datatype Reference = Reference(caller: Decl, callee: Decl)

  /** The graph of the references in a list, recorded one after the other. */
  function GraphOf(refs: seq<Reference>): Edges {
    if refs == [] then map[]
    else WithEdge(GraphOf(refs[..|refs| - 1]), refs[|refs| - 1].caller, refs[|refs| - 1].callee)
  }

  lemma EdgeAdded(edges: Edges, caller: Decl, callee: Decl, d: Decl, e: Decl)
    requires caller != callee
    ensures d in WithEdge(edges, caller, callee) <==> d in edges || d == caller || d == callee
    ensures d in WithEdge(edges, caller, callee) ==>
              (e in WithEdge(edges, caller, callee)[d] <==> (d in edges && e in edges[d]) || (d == caller && e == callee))
  {
  }

  /** The nodes are the ends of the references between different declarations, and the edges
      are those references. */
  lemma {:induction false} GraphExactly(refs: seq<Reference>, d: Decl, e: Decl)
    ensures d in GraphOf(refs) <==> exists r :: r in refs && r.caller != r.callee && (r.caller == d || r.callee == d)
    ensures d in GraphOf(refs) ==> (e in GraphOf(refs)[d] <==> d != e && Reference(d, e) in refs)
  {
    if refs != [] {
      var before, last := refs[..|refs| - 1], refs[|refs| - 1];
      GraphExactly(before, d, e);
      assert forall r :: r in refs <==> r in before || r == last;
      if last.caller != last.callee {
        EdgeAdded(GraphOf(before), last.caller, last.callee, d, e);
      }
    }
  }

  // ---------- The graph ----------

  class CallGraphNode {
    const decl: Decl
    var callees: seq<CallGraphNode>

    constructor (decl: Decl)
      ensures this.decl == decl && callees == []
    {
      this.decl := decl;
      callees := [];
    }
  }

  function DeclsOf(nodes: seq<CallGraphNode>): (decls: seq<Decl>)
    ensures |decls| == |nodes| && forall i :: 0 <= i < |nodes| ==> decls[i] == nodes[i].decl
  {
    if nodes == [] then [] else [nodes[0].decl] + DeclsOf(nodes[1..])
  }

  class HelperDeclRefGraph {
    var declMap: map<Decl, CallGraphNode>

    predicate IsNode(n: CallGraphNode)
      reads this
    {
      n.decl in declMap && declMap[n.decl] == n
    }

    ghost predicate Valid()
      reads this, declMap.Values
    {
      forall d :: d in declMap ==> IsNode(declMap[d]) && declMap[d].decl == d && forall n :: n in declMap[d].callees ==> IsNode(n)
    }

    ghost function Graph(): Edges
      reads this, declMap.Values
    {
      map d | d in declMap :: DeclsOf(declMap[d].callees)
    }

    /** References lead to nodes of the graph. */
    lemma CalleesAreNodes(d: Decl, e: Decl)
      requires Valid() && d in Graph() && e in Graph()[d]
      ensures e in Graph()
    {
      var i :| 0 <= i < |Graph()[d]| && Graph()[d][i] == e;
      assert declMap[d].callees[i] in declMap[d].callees;
    }

    constructor ()
      ensures Valid() && Graph() == map[] && declMap == map[]
    {
      declMap := map[];
    }

    method GetOrInsertNode(d: Decl) returns (node: CallGraphNode)
      requires Valid()
      modifies this
      ensures Valid() && d in declMap && declMap[d] == node
      ensures Graph() == WithNode(old(Graph()), d)
      ensures forall e :: e in old(declMap) ==> e in declMap && declMap[e] == old(declMap)[e]
      ensures forall e :: e in declMap && e !in old(declMap) ==> fresh(declMap[e])
      ensures forall e :: e in declMap ==> fresh(declMap[e]) || e in old(declMap)
    {
      if d in declMap {
        return declMap[d];
      }
      node := new CallGraphNode(d);
      declMap := declMap[d := node];
    }

    /** Puts one more callee into a node of the graph. */
    method AddCallee(caller: CallGraphNode, callee: CallGraphNode)
      requires Valid() && IsNode(caller) && IsNode(callee)
      modifies caller
      ensures Valid()
      ensures Graph() == old(Graph())[caller.decl := old(Graph())[caller.decl] + [callee.decl]]
    {
      ghost var before := Graph();
      DeclsOfLonger(caller.callees, callee);
      caller.callees := caller.callees + [callee];
      forall d | d in declMap
        ensures Graph()[d] == before[caller.decl := before[caller.decl] + [callee.decl]][d]
      {
        if d != caller.decl {
          assert declMap[d] != caller;
        }
      }
    }

    /** Records that the caller refers to the callee. */
    method AddEdge(caller: Decl, callee: Decl)
      requires Valid()
      modifies this, declMap.Values
      ensures Valid() && Graph() == WithEdge(old(Graph()), caller, callee)
    {
      if caller == callee {
        return;
      }
      var callerNode := GetOrInsertNode(caller);
      var calleeNode := GetOrInsertNode(callee);
      assert fresh(callerNode) || callerNode in old(declMap.Values);
      AddCallee(callerNode, calleeNode);
    }

    /** Everything that is new is reachable from the node. */
    ghost predicate AllReached(node: CallGraphNode, before: set<CallGraphNode>, connected: set<CallGraphNode>)
      reads this, declMap.Values
    {
      forall n :: n in connected - before ==> IsNode(n) && Reaches(Graph(), node.decl, n.decl)
    }

    /** The nodes refer to connected nodes only. */
    ghost predicate AllConnected(nodes: set<CallGraphNode>, connected: set<CallGraphNode>)
      reads nodes
    {
      forall n, i :: n in nodes && 0 <= i < |n.callees| ==> n.callees[i] in connected
    }

    lemma CalleeReaches(node: CallGraphNode, i: nat, before: set<CallGraphNode>, connected: set<CallGraphNode>)
      requires Valid() && IsNode(node) && i < |node.callees| && AllReached(node.callees[i], before, connected)
      ensures AllReached(node, before, connected)
    {
      var callee := node.callees[i];
      forall n | n in connected - before
        ensures Reaches(Graph(), node.decl, n.decl)
      {
        assert Graph()[node.decl][i] == callee.decl;
        ReachesBefore(Graph(), node.decl, callee.decl, n.decl);
      }
    }

    /** A visit that has dealt with the first `i` callees of the node. */
    ghost predicate Visiting(node: CallGraphNode, before: set<CallGraphNode>, connected: set<CallGraphNode>, i: nat)
      requires i <= |node.callees|
      reads this, declMap.Values, connected, node
    {
      && before + {node} <= connected && AllReached(node, before, connected)
      && AllConnected(connected - before - {node}, connected)
      && forall k :: 0 <= k < i ==> node.callees[k] in connected
    }

    lemma VisitBegins(node: CallGraphNode, before: set<CallGraphNode>)
      requires Valid() && IsNode(node)
      ensures Visiting(node, before, before + {node}, 0)
    {
      ReachesItself(Graph(), node.decl);
    }

    lemma VisitContinues(node: CallGraphNode, before: set<CallGraphNode>, i: nat, sofar: set<CallGraphNode>, connected: set<CallGraphNode>)
      requires Valid() && IsNode(node) && i < |node.callees| && Visiting(node, before, sofar, i)
      requires sofar + {node.callees[i]} <= connected && AllReached(node.callees[i], sofar, connected)
      requires AllConnected(connected - sofar, connected)
      ensures Visiting(node, before, connected, i + 1)
    {
      CalleeReaches(node, i, sofar, connected);
    }

    lemma VisitEnds(node: CallGraphNode, before: set<CallGraphNode>, connected: set<CallGraphNode>)
      requires Visiting(node, before, connected, |node.callees|)
      ensures AllConnected(connected - before, connected)
    {
    }

    /** Depth-first: everything new is reachable from the node, and refers only to
        what is connected. */
    method VisitNode(node: CallGraphNode, before: set<CallGraphNode>) returns (connected: set<CallGraphNode>)
      requires Valid() && IsNode(node)
      ensures before + {node} <= connected && AllReached(node, before, connected)
      ensures AllConnected(connected - before, connected)
      decreases declMap.Values - before
    {
      if node in before {
        return before;
      }
      connected := before + {node};
      VisitBegins(node, before);
      assert node in declMap.Values;
      var i := 0;
      while i < |node.callees|
        invariant i <= |node.callees| && before + {node} <= connected && Visiting(node, before, connected, i)
      {
        assert node.callees[i] in declMap[node.decl].callees;
        ghost var sofar := connected;
        connected := VisitNode(node.callees[i], connected);
        VisitContinues(node, before, i, sofar, connected);
        i := i + 1;
      }
      VisitEnds(node, before, connected);
    }

    lemma ConnectedIsClosed(nodes: set<CallGraphNode>)
      requires Valid() && (forall n :: n in nodes ==> IsNode(n)) && AllConnected(nodes, nodes)
      ensures IsClosed(Graph(), DeclSet(nodes))
    {
      var decls := DeclSet(nodes);
      forall d, e | d in decls && d in Graph() && e in Graph()[d]
        ensures e in decls
      {
        var n :| n in nodes && n.decl == d;
        var i :| 0 <= i < |Graph()[d]| && Graph()[d][i] == e;
        assert n.callees[i] in nodes;
      }
    }

    /** Main result: the nodes are exactly the reachable ones, whatever cycles the graph
        has. */
    method GetReachableNodes(root: Decl) returns (nodes: set<CallGraphNode>)
      requires Valid()
      ensures forall n :: n in nodes ==> IsNode(n)
      ensures forall d :: d in DeclSet(nodes) <==> Reaches(Graph(), root, d)
    {
      if root !in declMap {
        return {};
      }
      nodes := VisitNode(declMap[root], {});
      assert nodes - {} == nodes;
      ConnectedIsClosed(nodes);
      assert declMap[root].decl in DeclSet(nodes);
      forall d | Reaches(Graph(), root, d)
        ensures d in DeclSet(nodes)
      {
        ReachesInside(Graph(), DeclSet(nodes), root, d);
      }
    }
  }

  function DeclSet(nodes: set<CallGraphNode>): set<Decl> {
    set n | n in nodes :: n.decl
  }

  lemma DeclsOfLonger(nodes: seq<CallGraphNode>, last: CallGraphNode)
    ensures DeclsOf(nodes + [last]) == DeclsOf(nodes) + [last.decl]
  {
    var longer := nodes + [last];
    assert forall i :: 0 <= i < |longer| ==> DeclsOf(longer)[i] == (DeclsOf(nodes) + [last.decl])[i];
  }
}
