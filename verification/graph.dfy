/**
 * The waits-for graph as an adjacency list (src/Deadlocks/Graph.cs and
 * src/Deadlocks/Node.cs). Vertices are transaction names.
 */
module Graphs {
  import opened Wrappers

  /** A vertex and the vertices it waits for. */
  datatype Node = Node(vertex: string, neighbors: seq<string>)

  /** The nodes in insertion order. */
  datatype Graph = Graph(nodes: seq<Node>)

  /** A new node carries the given vertex and no neighbours. */
  function NewNode(vertex: string): (n: Node)
    ensures n.vertex == vertex && n.neighbors == []
  {
    Node(vertex, [])
  }

  /** Whether the node waits for `neighbor`; a query, so the node is untouched by it. */
  predicate Contains(n: Node, neighbor: string) {
    exists k :: 0 <= k < |n.neighbors| && n.neighbors[k] == neighbor
  }

  lemma ContainsIffNeighbor(n: Node, neighbor: string)
    ensures Contains(n, neighbor) <==> neighbor in n.neighbors
  {
  }

  function Empty(): (g: Graph)
    ensures g.nodes == []
  {
    Graph([])
  }

  predicate NoDuplicates(s: seq<string>) {
    forall i, j :: 0 <= i < j < |s| ==> s[i] != s[j]
  }

  /** Each vertex has one node and no neighbour list repeats an entry. */
  predicate WellFormed(g: Graph) {
    && (forall i, j :: 0 <= i < j < |g.nodes| ==> g.nodes[i].vertex != g.nodes[j].vertex)
    && (forall i :: 0 <= i < |g.nodes| ==> NoDuplicates(g.nodes[i].neighbors))
  }

  function Vertices(g: Graph): (r: set<string>)
    ensures forall v :: v in r <==> exists i :: 0 <= i < |g.nodes| && g.nodes[i].vertex == v
  {
    set i | 0 <= i < |g.nodes| :: g.nodes[i].vertex
  }

  /** Every name the graph mentions, as a vertex or as a neighbour. */
  function Universe(g: Graph): (r: set<string>)
    ensures Vertices(g) <= r
    ensures forall i, v :: 0 <= i < |g.nodes| && v in g.nodes[i].neighbors ==> v in r
  {
    Vertices(g) + set i, k | 0 <= i < |g.nodes| && 0 <= k < |g.nodes[i].neighbors| :: g.nodes[i].neighbors[k]
  }

  /** Every neighbour is itself a vertex. */
  predicate Closed(g: Graph) {
    forall i, v :: 0 <= i < |g.nodes| && v in g.nodes[i].neighbors ==> v in Vertices(g)
  }

  /** Position of the first node for `vertex` (`FirstOrDefault`). */
  function FindNode(g: Graph, vertex: string): (r: Option<nat>)
    ensures r.Some? ==> r.value < |g.nodes| && g.nodes[r.value].vertex == vertex
    ensures r.Some? ==> forall j :: 0 <= j < r.value ==> g.nodes[j].vertex != vertex
    ensures r.None? <==> vertex !in Vertices(g)
  {
    FindFrom(g.nodes, vertex)
  }

  function FindFrom(nodes: seq<Node>, vertex: string): (r: Option<nat>)
    ensures r.Some? ==> r.value < |nodes| && nodes[r.value].vertex == vertex
    ensures r.Some? ==> forall j :: 0 <= j < r.value ==> nodes[j].vertex != vertex
    ensures r.None? <==> forall j :: 0 <= j < |nodes| ==> nodes[j].vertex != vertex
  {
    if nodes == [] then None
    else if nodes[0].vertex == vertex then Some(0)
    else match FindFrom(nodes[1..], vertex)
      case None => None
      case Some(k) => Some(k + 1)
  }

  /** The neighbours of `vertex`: those of its first node, none when it has no node. */
  function Neighbors(g: Graph, vertex: string): (r: seq<string>)
    ensures forall v :: v in r ==> v in Universe(g)
  {
    match FindNode(g, vertex)
    case None => []
    case Some(k) => g.nodes[k].neighbors
  }

  /**
   * The node for `vertex`: the existing one, or a new one appended to the
   * graph. Either way the graph keeps one node per vertex.
   */
  function GetNode(g: Graph, vertex: string): (r: (Graph, nat))
    ensures r.1 < |r.0.nodes| && r.0.nodes[r.1].vertex == vertex
    ensures vertex in Vertices(g) ==> r.0 == g
    ensures vertex !in Vertices(g) ==> r.0.nodes == g.nodes + [NewNode(vertex)]
    ensures WellFormed(g) ==> WellFormed(r.0)
  {
    match FindNode(g, vertex)
    case Some(k) => (g, k)
    case None => (Graph(g.nodes + [NewNode(vertex)]), |g.nodes|)
  }

  /** Appends, in order, each given neighbour the node does not have yet. */
  function AddNeighbors(n: Node, neighbors: seq<string>): (r: Node)
    ensures r.vertex == n.vertex
    ensures |n.neighbors| <= |r.neighbors| && r.neighbors[..|n.neighbors|] == n.neighbors
    ensures forall v :: v in r.neighbors <==> v in n.neighbors || v in neighbors
    ensures NoDuplicates(n.neighbors) ==> NoDuplicates(r.neighbors)
    decreases |neighbors|
  {
    if neighbors == [] then n
    else
      var next := if neighbors[0] in n.neighbors then n else n.(neighbors := n.neighbors + [neighbors[0]]);
      var r := AddNeighbors(next, neighbors[1..]);
      assert r.neighbors[..|n.neighbors|] == next.neighbors[..|n.neighbors|];
      r
  }

  /**
   * Adds `vertex` with its neighbours, if any are given. Without neighbours
   * it only makes sure the node exists.
   */
  function Add(g: Graph, vertex: string, neighbors: Option<seq<string>>): (r: Graph)
    ensures vertex in Vertices(r)
    ensures Vertices(r) == Vertices(g) + {vertex}
    ensures neighbors.None? ==> forall u :: Neighbors(r, u) == Neighbors(g, u)
    ensures neighbors.Some? ==> forall v :: v in Neighbors(r, vertex) <==> v in Neighbors(g, vertex) || v in neighbors.value
    ensures forall u :: u != vertex ==> Neighbors(r, u) == Neighbors(g, u)
    ensures WellFormed(g) ==> WellFormed(r)
  {
    var (g', k) := GetNode(g, vertex);
    GetNodeKeepsEdges(g, vertex);
    match neighbors
    case None => g'
    case Some(ns) =>
      assert FindNode(g', vertex) == Some(k);
      ExtendNode(g', k, ns);
      Graph(g'.nodes[k := AddNeighbors(g'.nodes[k], ns)])
  }

  /** Extending the node at `k` changes the neighbours of its vertex only. */
  lemma ExtendNode(g: Graph, k: nat, ns: seq<string>)
    requires k < |g.nodes| && FindNode(g, g.nodes[k].vertex) == Some(k)
    ensures var r := Graph(g.nodes[k := AddNeighbors(g.nodes[k], ns)]);
      && Vertices(r) == Vertices(g)
      && (forall v :: v in Neighbors(r, g.nodes[k].vertex) <==> v in Neighbors(g, g.nodes[k].vertex) || v in ns)
      && (forall u :: u != g.nodes[k].vertex ==> Neighbors(r, u) == Neighbors(g, u))
      && (WellFormed(g) ==> WellFormed(r))
  {
    var n := AddNeighbors(g.nodes[k], ns);
    var r := Graph(g.nodes[k := n]);
    UpdateKeepsVertices(g, k, n);
    assert Neighbors(r, g.nodes[k].vertex) == n.neighbors;
    forall u | u != g.nodes[k].vertex
      ensures Neighbors(r, u) == Neighbors(g, u)
    {
      match FindNode(g, u)
      case None =>
      case Some(j) => assert j != k && r.nodes[j] == g.nodes[j];
    }
    if WellFormed(g) {
      assert forall i :: 0 <= i < |r.nodes| && i != k ==> r.nodes[i] == g.nodes[i];
    }
  }

  /** Getting a node adds at most its vertex and changes no neighbour list. */
  lemma GetNodeKeepsEdges(g: Graph, vertex: string)
    ensures Vertices(GetNode(g, vertex).0) == Vertices(g) + {vertex}
    ensures forall u :: Neighbors(GetNode(g, vertex).0, u) == Neighbors(g, u)
  {
    var g' := GetNode(g, vertex).0;
    if vertex !in Vertices(g) {
      assert g'.nodes[|g.nodes|].vertex == vertex;
      assert forall i :: 0 <= i < |g.nodes| ==> g'.nodes[i] == g.nodes[i];
      forall u
        ensures Neighbors(g', u) == Neighbors(g, u)
      {
        FindPrefix(g.nodes, [NewNode(vertex)], u);
      }
    }
  }

  /** Replacing a node by one with the same vertex keeps every lookup. */
  lemma UpdateKeepsVertices(g: Graph, k: nat, n: Node)
    requires k < |g.nodes| && n.vertex == g.nodes[k].vertex
    ensures Vertices(Graph(g.nodes[k := n])) == Vertices(g)
    ensures forall u :: FindNode(Graph(g.nodes[k := n]), u) == FindNode(g, u)
  {
    var r := Graph(g.nodes[k := n]);
    assert forall i :: 0 <= i < |r.nodes| ==> r.nodes[i].vertex == g.nodes[i].vertex;
    forall u
      ensures FindNode(r, u) == FindNode(g, u)
    {
      SameVerticesSameFind(g.nodes, r.nodes, u);
    }
  }

  lemma {:induction false} FindPrefix(a: seq<Node>, b: seq<Node>, vertex: string)
    ensures FindFrom(a + b, vertex) ==
      match FindFrom(a, vertex)
      case Some(k) => Some(k)
      case None => match FindFrom(b, vertex)
        case None => None
        case Some(k) => Some(|a| + k)
    decreases |a|
  {
    if a == [] {
      assert a + b == b;
    } else {
      assert (a + b)[0] == a[0];
      assert (a + b)[1..] == a[1..] + b;
      FindPrefix(a[1..], b, vertex);
    }
  }

  lemma {:induction false} SameVerticesSameFind(a: seq<Node>, b: seq<Node>, vertex: string)
    requires |a| == |b| && forall i :: 0 <= i < |a| ==> a[i].vertex == b[i].vertex
    ensures FindFrom(a, vertex) == FindFrom(b, vertex)
    decreases |a|
  {
    if a != [] {
      SameVerticesSameFind(a[1..], b[1..], vertex);
    }
  }

  /** `List.Remove`: drops the first occurrence of `x`, if any. */
  function RemoveFirst(s: seq<string>, x: string): (r: seq<string>)
    ensures x in s ==> |r| == |s| - 1
    ensures x !in s ==> r == s
    ensures forall v :: v in r ==> v in s
    ensures forall v :: v in s && v != x ==> v in r
  {
    if s == [] then []
    else if s[0] == x then s[1..]
    else [s[0]] + RemoveFirst(s[1..], x)
  }

  /** Removing from a list without repeats leaves none, and no copy of the removed name. */
  lemma {:induction false} RemoveFirstKeepsDistinct(s: seq<string>, x: string)
    requires NoDuplicates(s)
    ensures NoDuplicates(RemoveFirst(s, x)) && x !in RemoveFirst(s, x)
  {
    if s != [] {
      assert NoDuplicates(s[1..]) by {
        forall i, j | 0 <= i < j < |s[1..]|
          ensures s[1..][i] != s[1..][j]
        {
          assert s[1..][i] == s[i + 1] && s[1..][j] == s[j + 1];
        }
      }
      if s[0] == x {
        assert forall k :: 0 <= k < |s[1..]| ==> s[1..][k] == s[k + 1] && s[k + 1] != s[0];
      } else {
        RemoveFirstKeepsDistinct(s[1..], x);
        assert forall k :: 0 <= k < |s[1..]| ==> s[1..][k] == s[k + 1] && s[k + 1] != s[0];
        ConsNoDuplicates(s[0], RemoveFirst(s[1..], x));
      }
    }
  }

  lemma ConsNoDuplicates(x: string, s: seq<string>)
    requires NoDuplicates(s) && x !in s
    ensures NoDuplicates([x] + s)
  {
    forall i, j | 0 <= i < j < |[x] + s|
      ensures ([x] + s)[i] != ([x] + s)[j]
    {
      if i > 0 {
        assert ([x] + s)[i] == s[i - 1];
      }
      assert ([x] + s)[j] == s[j - 1];
    }
  }

  /**
   * Removes the first node for `vertex` and the first occurrence of `vertex`
   * in every remaining neighbour list.
   */
  function Remove(g: Graph, vertex: string): (r: Graph)
    ensures |r.nodes| == |g.nodes| - (if vertex in Vertices(g) then 1 else 0)
  {
    Graph(Strip(DropFirst(g.nodes, vertex), vertex))
  }

  /** The nodes without the first one for `vertex`. */
  function DropFirst(nodes: seq<Node>, vertex: string): (r: seq<Node>)
    ensures |r| == |nodes| - (if exists i :: 0 <= i < |nodes| && nodes[i].vertex == vertex then 1 else 0)
  {
    if nodes == [] then []
    else if nodes[0].vertex == vertex then nodes[1..]
    else
      assert forall i :: 0 <= i < |nodes[1..]| ==> nodes[1..][i] == nodes[i + 1];
      [nodes[0]] + DropFirst(nodes[1..], vertex)
  }

  /** The nodes with the first occurrence of `vertex` dropped from every neighbour list. */
  function Strip(nodes: seq<Node>, vertex: string): (r: seq<Node>)
    ensures |r| == |nodes|
    ensures forall i :: 0 <= i < |r| ==> r[i].vertex == nodes[i].vertex
    ensures forall i :: 0 <= i < |r| ==> r[i].neighbors == RemoveFirst(nodes[i].neighbors, vertex)
  {
    if nodes == [] then []
    else [nodes[0].(neighbors := RemoveFirst(nodes[0].neighbors, vertex))] + Strip(nodes[1..], vertex)
  }

  /** The neighbours of the first node for `vertex` in a list of nodes. */
  function NeighborsIn(nodes: seq<Node>, vertex: string): seq<string>
  {
    if nodes == [] then []
    else if nodes[0].vertex == vertex then nodes[0].neighbors
    else NeighborsIn(nodes[1..], vertex)
  }

  lemma {:induction false} NeighborsInIsNeighbors(nodes: seq<Node>, vertex: string)
    ensures NeighborsIn(nodes, vertex) == Neighbors(Graph(nodes), vertex)
    decreases |nodes|
  {
    if nodes != [] && nodes[0].vertex != vertex {
      NeighborsInIsNeighbors(nodes[1..], vertex);
    }
  }

  lemma {:induction false} StripNeighbors(nodes: seq<Node>, vertex: string, u: string)
    ensures NeighborsIn(Strip(nodes, vertex), u) == RemoveFirst(NeighborsIn(nodes, u), vertex)
    decreases |nodes|
  {
    if nodes != [] {
      StripNeighbors(nodes[1..], vertex, u);
    }
  }

  lemma {:induction false} DropFirstNeighbors(nodes: seq<Node>, vertex: string, u: string)
    ensures u != vertex ==> NeighborsIn(DropFirst(nodes, vertex), u) == NeighborsIn(nodes, u)
    ensures (forall i, j :: 0 <= i < j < |nodes| ==> nodes[i].vertex != nodes[j].vertex) ==>
      NeighborsIn(DropFirst(nodes, vertex), vertex) == [] && forall i :: 0 <= i < |DropFirst(nodes, vertex)| ==> DropFirst(nodes, vertex)[i].vertex != vertex
    decreases |nodes|
  {
    if nodes != [] {
      DropFirstNeighbors(nodes[1..], vertex, u);
      if nodes[0].vertex == vertex && forall i, j :: 0 <= i < j < |nodes| ==> nodes[i].vertex != nodes[j].vertex {
        NoVertexNoNeighbors(nodes[1..], vertex);
      }
    }
  }

  lemma {:induction false} NoVertexNoNeighbors(nodes: seq<Node>, vertex: string)
    requires forall i :: 0 <= i < |nodes| ==> nodes[i].vertex != vertex
    ensures NeighborsIn(nodes, vertex) == []
    decreases |nodes|
  {
    if nodes != [] {
      NoVertexNoNeighbors(nodes[1..], vertex);
    }
  }

  /**
   * In a well-formed graph, removing a vertex deletes its node and drops it
   * from every other node's neighbours, leaving everything else in place.
   */
  lemma RemoveDeletesVertex(g: Graph, vertex: string)
    requires WellFormed(g)
    ensures Vertices(Remove(g, vertex)) == Vertices(g) - {vertex}
    ensures Neighbors(Remove(g, vertex), vertex) == []
    ensures forall u :: u != vertex ==> Neighbors(Remove(g, vertex), u) == RemoveFirst(Neighbors(g, u), vertex)
    ensures vertex !in Universe(Remove(g, vertex))
    ensures WellFormed(Remove(g, vertex))
    ensures Closed(g) ==> Closed(Remove(g, vertex))
  {
    RemoveNeighbors(g, vertex);
    RemoveKeepsDistinct(g, vertex);
    DropFirstVertices(g.nodes, vertex);
    if Closed(g) {
      RemoveKeepsClosed(g, vertex);
    }
  }

  /** Every neighbour left after removal is a vertex left after removal. */
  lemma RemoveKeepsClosed(g: Graph, vertex: string)
    requires WellFormed(g) && Closed(g)
    ensures Closed(Remove(g, vertex))
  {
    var r := Remove(g, vertex);
    var kept := DropFirst(g.nodes, vertex);
    DropFirstVertices(g.nodes, vertex);
    DropFirstDistinct(g.nodes, vertex);
    forall i, v | 0 <= i < |r.nodes| && v in r.nodes[i].neighbors
      ensures v in Vertices(r)
    {
      assert v in kept[i].neighbors;
      var j :| 0 <= j < |g.nodes| && g.nodes[j] == kept[i];
      assert v in g.nodes[j].neighbors;
      assert v != vertex by {
        assert r.nodes[i].neighbors == RemoveFirst(kept[i].neighbors, vertex);
        RemoveFirstKeepsDistinct(kept[i].neighbors, vertex);
      }
      assert v in Vertices(Graph(kept));
      var m :| 0 <= m < |kept| && kept[m].vertex == v;
      assert r.nodes[m].vertex == v;
    }
  }

  /** Removal empties the removed vertex's neighbours and drops it from everybody else's. */
  lemma RemoveNeighbors(g: Graph, vertex: string)
    requires WellFormed(g)
    ensures Neighbors(Remove(g, vertex), vertex) == []
    ensures forall u :: u != vertex ==> Neighbors(Remove(g, vertex), u) == RemoveFirst(Neighbors(g, u), vertex)
  {
    var r := Remove(g, vertex);
    var kept := DropFirst(g.nodes, vertex);
    forall u
      ensures Neighbors(r, u) == if u == vertex then [] else RemoveFirst(Neighbors(g, u), vertex)
    {
      NeighborsInIsNeighbors(r.nodes, u);
      NeighborsInIsNeighbors(g.nodes, u);
      StripNeighbors(kept, vertex, u);
      DropFirstNeighbors(g.nodes, vertex, u);
    }
  }

  /** After removal the vertex is mentioned nowhere, and the graph stays well formed. */
  lemma RemoveKeepsDistinct(g: Graph, vertex: string)
    requires WellFormed(g)
    ensures vertex !in Universe(Remove(g, vertex))
    ensures WellFormed(Remove(g, vertex))
  {
    var r := Remove(g, vertex);
    var kept := DropFirst(g.nodes, vertex);
    DropFirstVertices(g.nodes, vertex);
    DropFirstDistinct(g.nodes, vertex);
    forall i, k | 0 <= i < |r.nodes| && 0 <= k < |r.nodes[i].neighbors|
      ensures r.nodes[i].neighbors[k] != vertex
    {
      RemoveFirstKeepsDistinct(kept[i].neighbors, vertex);
    }
    assert vertex !in Vertices(r);
    forall i | 0 <= i < |r.nodes|
      ensures NoDuplicates(r.nodes[i].neighbors)
    {
      RemoveFirstKeepsDistinct(kept[i].neighbors, vertex);
    }
  }

  lemma {:induction false} DropFirstVertices(nodes: seq<Node>, vertex: string)
    requires forall i, j :: 0 <= i < j < |nodes| ==> nodes[i].vertex != nodes[j].vertex
    ensures Vertices(Graph(DropFirst(nodes, vertex))) == Vertices(Graph(nodes)) - {vertex}
    decreases |nodes|
  {
    if nodes != [] {
      var tail := nodes[1..];
      assert nodes == [nodes[0]] + tail;
      VerticesCons(nodes[0], tail);
      DropFirstVertices(tail, vertex);
      if nodes[0].vertex == vertex {
        assert vertex !in Vertices(Graph(tail)) by {
          assert forall i :: 0 <= i < |tail| ==> tail[i].vertex == nodes[i + 1].vertex != nodes[0].vertex;
        }
      } else {
        VerticesCons(nodes[0], DropFirst(tail, vertex));
      }
    }
  }

  lemma VerticesCons(n: Node, nodes: seq<Node>)
    ensures Vertices(Graph([n] + nodes)) == {n.vertex} + Vertices(Graph(nodes))
  {
    var c := [n] + nodes;
    assert c[0] == n;
    assert forall i :: 0 <= i < |nodes| ==> c[i + 1] == nodes[i];
    forall v | v in Vertices(Graph(c))
      ensures v in {n.vertex} + Vertices(Graph(nodes))
    {
      var i :| 0 <= i < |c| && c[i].vertex == v;
      if i > 0 {
        assert nodes[i - 1].vertex == v;
      }
    }
  }

  /** Removing a vertex keeps every remaining neighbour list free of repeats and keeps vertices unique. */
  lemma {:induction false} DropFirstDistinct(nodes: seq<Node>, vertex: string)
    ensures forall i :: 0 <= i < |DropFirst(nodes, vertex)| ==> DropFirst(nodes, vertex)[i] in nodes
    ensures (forall i, j :: 0 <= i < j < |nodes| ==> nodes[i].vertex != nodes[j].vertex) ==>
      forall i, j :: 0 <= i < j < |DropFirst(nodes, vertex)| ==> DropFirst(nodes, vertex)[i].vertex != DropFirst(nodes, vertex)[j].vertex
    decreases |nodes|
  {
    if nodes != [] {
      DropFirstDistinct(nodes[1..], vertex);
    }
  }

  /** The number of nodes plus the length of every neighbour list. */
  function Size(g: Graph): nat
  {
    SizeOf(g.nodes)
  }

  function SizeOf(nodes: seq<Node>): nat
  {
    if nodes == [] then 0 else 1 + |nodes[0].neighbors| + SizeOf(nodes[1..])
  }

  lemma {:induction false} SizeOfStrip(nodes: seq<Node>, vertex: string)
    ensures SizeOf(Strip(nodes, vertex)) <= SizeOf(nodes)
    ensures (exists i :: 0 <= i < |nodes| && vertex in nodes[i].neighbors) ==> SizeOf(Strip(nodes, vertex)) < SizeOf(nodes)
    decreases |nodes|
  {
    if nodes != [] {
      SizeOfStrip(nodes[1..], vertex);
      assert Strip(nodes, vertex)[1..] == Strip(nodes[1..], vertex);
      if exists i :: 0 <= i < |nodes| && vertex in nodes[i].neighbors {
        var i :| 0 <= i < |nodes| && vertex in nodes[i].neighbors;
        if i > 0 {
          assert vertex in nodes[1..][i - 1].neighbors;
        }
      }
    }
  }

  lemma {:induction false} SizeOfDropFirst(nodes: seq<Node>, vertex: string)
    ensures SizeOf(DropFirst(nodes, vertex)) <= SizeOf(nodes)
    ensures (forall i :: 0 <= i < |nodes| ==> nodes[i].vertex != vertex) ==> DropFirst(nodes, vertex) == nodes
    ensures (exists i :: 0 <= i < |nodes| && nodes[i].vertex == vertex) ==> SizeOf(DropFirst(nodes, vertex)) < SizeOf(nodes)
    decreases |nodes|
  {
    if nodes != [] {
      SizeOfDropFirst(nodes[1..], vertex);
      if nodes[0].vertex != vertex {
        var d := DropFirst(nodes[1..], vertex);
        assert ([nodes[0]] + d)[1..] == d;
        if exists i :: 0 <= i < |nodes| && nodes[i].vertex == vertex {
          var i :| 0 <= i < |nodes| && nodes[i].vertex == vertex;
          assert nodes[1..][i - 1].vertex == vertex;
        }
        if forall i :: 0 <= i < |nodes| ==> nodes[i].vertex != vertex {
          assert forall i :: 0 <= i < |nodes[1..]| ==> nodes[1..][i] == nodes[i + 1];
          assert [nodes[0]] + nodes[1..] == nodes;
        }
      }
    }
  }

  /** Removing a vertex the graph mentions makes the graph strictly smaller. */
  lemma RemoveShrinks(g: Graph, vertex: string)
    ensures Size(Remove(g, vertex)) <= Size(g)
    ensures vertex in Universe(g) ==> Size(Remove(g, vertex)) < Size(g)
  {
    var kept := DropFirst(g.nodes, vertex);
    SizeOfDropFirst(g.nodes, vertex);
    SizeOfStrip(kept, vertex);
    if vertex in Universe(g) && vertex !in Vertices(g) {
      var i, k :| 0 <= i < |g.nodes| && 0 <= k < |g.nodes[i].neighbors| && g.nodes[i].neighbors[k] == vertex;
      assert vertex in kept[i].neighbors;
    }
  }

  /** Removal never introduces a name. */
  lemma RemoveStaysInside(g: Graph, vertex: string)
    ensures Universe(Remove(g, vertex)) <= Universe(g)
  {
    var kept := DropFirst(g.nodes, vertex);
    var r := Remove(g, vertex);
    DropFirstDistinct(g.nodes, vertex);
    forall v | v in Universe(r)
      ensures v in Universe(g)
    {
      UniverseMember(r, v);
      if v in Vertices(r) {
        var i :| 0 <= i < |r.nodes| && r.nodes[i].vertex == v;
        assert kept[i] in g.nodes;
      } else {
        var i :| 0 <= i < |r.nodes| && v in r.nodes[i].neighbors;
        assert v in kept[i].neighbors;
        assert kept[i] in g.nodes;
      }
    }
  }

  lemma UniverseMember(g: Graph, v: string)
    requires v in Universe(g)
    ensures v in Vertices(g) || exists i :: 0 <= i < |g.nodes| && v in g.nodes[i].neighbors
  {
  }

  /** In a closed graph every name is a vertex. */
  lemma ClosedUniverse(g: Graph)
    requires Closed(g)
    ensures Universe(g) == Vertices(g)
  {
  }
}
