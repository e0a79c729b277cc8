/**
 * Deadlock detection (src/Deadlocks/DeadlockManager.cs): build the
 * waits-for graph of the active transactions, look for a cycle by
 * depth-first search, and abort the youngest transaction of the reported
 * set until no cycle is found.
 */
module DeadlockManager {
  import opened Wrappers
  import opened Graphs
  import opened Transactions
  import opened Sites
  import opened Outcomes
  import opened Database
  import SiteManager
  import LockManager

  // ---------------------------------------------------------------------
  // The waits-for graph

  /** The variable of the buffered operation; a buffered `end` names none. */
  function BufferedVariable(t: Transaction): string {
    if t.buffer.Some? then t.buffer.value.variable else ""
  }

  /** `t` is waiting on `u`: `u` holds a lock on `t`'s buffered variable at a Stable site holding it. */
  predicate WaitsOn(sites: seq<Site>, t: Transaction, u: string) {
    && Active(t) && IsWaiting(t) && u != t.name
    && exists k :: 0 <= k < |sites| && sites[k].state == Stable && HoldsVariable(sites[k], BufferedVariable(t))
         && LockManager.Holds(sites[k].locks, u, BufferedVariable(t))
  }

  /**
   * `t` gets a node: it is active, and either not waiting or waiting on a
   * variable some Stable site holds. A waiting transaction whose variable
   * has no Stable copy (for one, a deferred read-only `end`) gets none.
   */
  predicate InGraph(sites: seq<Site>, t: Transaction) {
    Active(t) && (!IsWaiting(t) || exists k :: 0 <= k < |sites| && sites[k].state == Stable && HoldsVariable(sites[k], BufferedVariable(t)))
  }

  /** `x` blocks transaction `name` on `variable` at one of the sites at `positions`. */
  predicate BlocksAt(sites: seq<Site>, positions: seq<nat>, name: string, variable: string, x: string)
    requires forall a :: 0 <= a < |positions| ==> positions[a] < |sites|
  {
    exists a :: 0 <= a < |positions| && x in GetBlockingTransactions(sites[positions[a]], name, variable)
  }

  /** Blocking at some of the positions is blocking at the first or at one of the rest. */
  lemma BlocksAtCons(sites: seq<Site>, positions: seq<nat>, name: string, variable: string, x: string)
    requires positions != [] && forall a :: 0 <= a < |positions| ==> positions[a] < |sites|
    ensures BlocksAt(sites, positions, name, variable, x) <==>
      x in GetBlockingTransactions(sites[positions[0]], name, variable) || BlocksAt(sites, positions[1..], name, variable, x)
  {
    var rest := positions[1..];
    if BlocksAt(sites, rest, name, variable, x) {
      var a :| 0 <= a < |rest| && x in GetBlockingTransactions(sites[rest[a]], name, variable);
      assert rest[a] == positions[a + 1];
    }
    if BlocksAt(sites, positions, name, variable, x) {
      var a :| 0 <= a < |positions| && x in GetBlockingTransactions(sites[positions[a]], name, variable);
      if a > 0 {
        assert rest[a - 1] == positions[a];
      }
    }
  }

  /** One `graph.Add(transaction, waitingFor)` per Stable site holding the variable, in site order. */
  function AddWaits(g: Graph, sites: seq<Site>, positions: seq<nat>, name: string, variable: string): (r: Graph)
    requires forall a :: 0 <= a < |positions| ==> positions[a] < |sites|
    ensures Vertices(r) == Vertices(g) + (if positions == [] then {} else {name})
    ensures forall u :: u != name ==> Neighbors(r, u) == Neighbors(g, u)
    ensures forall x :: x in Neighbors(r, name) <==> (x in Neighbors(g, name) || BlocksAt(sites, positions, name, variable, x))
    ensures WellFormed(g) ==> WellFormed(r)
    decreases |positions|
  {
    if positions == [] then g
    else
      var blocking := GetBlockingTransactions(sites[positions[0]], name, variable);
      var g' := Add(g, name, Some(blocking));
      var r := AddWaits(g', sites, positions[1..], name, variable);
      assert forall x :: x in Neighbors(r, name) <==> (x in Neighbors(g, name) || BlocksAt(sites, positions, name, variable, x)) by {
        forall x
          ensures x in Neighbors(r, name) <==> (x in Neighbors(g, name) || BlocksAt(sites, positions, name, variable, x))
        {
          BlocksAtCons(sites, positions, name, variable, x);
        }
      }
      r
  }

  /** What `ConstructGraph` adds for one transaction. */
  function AddTransaction(g: Graph, sites: seq<Site>, t: Transaction): Graph
  {
    if !Active(t) then g
    else if !IsWaiting(t) then Add(g, t.name, None)
    else AddWaits(g, sites, SiteManager.Holders(sites, BufferedVariable(t), Stable), t.name, BufferedVariable(t))
  }

  /** Adding a transaction without a node gives it one exactly when it belongs in the graph, with exactly its waits as edges. */
  lemma AddTransactionSpec(g: Graph, sites: seq<Site>, t: Transaction)
    requires t.name !in Vertices(g)
    ensures var r := AddTransaction(g, sites, t);
      && (forall v :: v in Vertices(r) <==> v in Vertices(g) || (v == t.name && InGraph(sites, t)))
      && (forall u :: u != t.name ==> Neighbors(r, u) == Neighbors(g, u))
      && (forall x :: x in Neighbors(r, t.name) <==> WaitsOn(sites, t, x))
      && (WellFormed(g) ==> WellFormed(r))
  {
    assert Neighbors(g, t.name) == [];
    if Active(t) && IsWaiting(t) {
      WaitingTransactionSpec(g, sites, t);
    }
  }

  lemma WaitingTransactionSpec(g: Graph, sites: seq<Site>, t: Transaction)
    requires t.name !in Vertices(g) && Active(t) && IsWaiting(t)
    ensures var r := AddTransaction(g, sites, t);
      && (forall v :: v in Vertices(r) <==> v in Vertices(g) || (v == t.name && InGraph(sites, t)))
      && (forall x :: x in Neighbors(r, t.name) <==> WaitsOn(sites, t, x))
  {
    WaitingVertices(g, sites, t);
    WaitingEdges(g, sites, t);
  }

  /** A waiting transaction gets a node exactly when some Stable site holds its variable. */
  lemma WaitingVertices(g: Graph, sites: seq<Site>, t: Transaction)
    requires t.name !in Vertices(g) && Active(t) && IsWaiting(t)
    ensures forall v :: v in Vertices(AddTransaction(g, sites, t)) <==> v in Vertices(g) || (v == t.name && InGraph(sites, t))
  {
    var variable := BufferedVariable(t);
    var ps := SiteManager.Holders(sites, variable, Stable);
    var r := AddWaits(g, sites, ps, t.name, variable);
    assert AddTransaction(g, sites, t) == r;
    HoldersIffInGraph(sites, t);
    assert Vertices(r) == Vertices(g) + (if ps == [] then {} else {t.name});
  }

  /** For a waiting transaction, having a Stable holder of its variable is what puts it in the graph. */
  lemma HoldersIffInGraph(sites: seq<Site>, t: Transaction)
    requires Active(t) && IsWaiting(t)
    ensures SiteManager.Holders(sites, BufferedVariable(t), Stable) != [] <==> InGraph(sites, t)
  {
    var variable := BufferedVariable(t);
    var ps := SiteManager.Holders(sites, variable, Stable);
    if ps != [] {
      assert ps[0] in ps;
    }
    if InGraph(sites, t) {
      var k :| 0 <= k < |sites| && sites[k].state == Stable && HoldsVariable(sites[k], variable);
      assert k in ps;
    }
  }

  /** A waiting transaction's edges go exactly to the transactions it waits on. */
  lemma WaitingEdges(g: Graph, sites: seq<Site>, t: Transaction)
    requires t.name !in Vertices(g) && Active(t) && IsWaiting(t)
    ensures forall x :: x in Neighbors(AddTransaction(g, sites, t), t.name) <==> WaitsOn(sites, t, x)
  {
    var variable := BufferedVariable(t);
    var ps := SiteManager.Holders(sites, variable, Stable);
    assert AddTransaction(g, sites, t) == AddWaits(g, sites, ps, t.name, variable);
    forall x
      ensures x in Neighbors(AddWaits(g, sites, ps, t.name, variable), t.name) <==> WaitsOn(sites, t, x)
    {
      WaitEdge(g, sites, t, x);
    }
  }

  lemma WaitEdge(g: Graph, sites: seq<Site>, t: Transaction, x: string)
    requires t.name !in Vertices(g) && Active(t) && IsWaiting(t)
    ensures var ps := SiteManager.Holders(sites, BufferedVariable(t), Stable);
      x in Neighbors(AddWaits(g, sites, ps, t.name, BufferedVariable(t)), t.name) <==> WaitsOn(sites, t, x)
  {
    assert Neighbors(g, t.name) == [];
    if WaitsOn(sites, t, x) {
      WaitsOnBlocks(sites, t, x);
    } else {
      BlocksWaitsOn(sites, t, x);
    }
  }

  /** A transaction `t` waits on is blocking it at one of the Stable holders. */
  lemma WaitsOnBlocks(sites: seq<Site>, t: Transaction, x: string)
    requires WaitsOn(sites, t, x)
    ensures var ps := SiteManager.Holders(sites, BufferedVariable(t), Stable);
      BlocksAt(sites, ps, t.name, BufferedVariable(t), x)
  {
    var variable := BufferedVariable(t);
    var ps := SiteManager.Holders(sites, variable, Stable);
    var k :| 0 <= k < |sites| && sites[k].state == Stable && HoldsVariable(sites[k], variable)
      && LockManager.Holds(sites[k].locks, x, variable);
    assert k in ps;
    var a :| 0 <= a < |ps| && ps[a] == k;
    assert x in GetBlockingTransactions(sites[ps[a]], t.name, variable);
  }

  /** A transaction blocking `t` at one of the Stable holders is one `t` waits on. */
  lemma BlocksWaitsOn(sites: seq<Site>, t: Transaction, x: string)
    requires Active(t) && IsWaiting(t)
    ensures var ps := SiteManager.Holders(sites, BufferedVariable(t), Stable);
      BlocksAt(sites, ps, t.name, BufferedVariable(t), x) ==> WaitsOn(sites, t, x)
  {
    var variable := BufferedVariable(t);
    var ps := SiteManager.Holders(sites, variable, Stable);
    if a :| 0 <= a < |ps| && x in GetBlockingTransactions(sites[ps[a]], t.name, variable) {
      assert ps[a] in ps;
    }
  }

  function BuildFrom(g: Graph, sites: seq<Site>, txs: seq<Transaction>): Graph
    decreases |txs|
  {
    if txs == [] then g else BuildFrom(AddTransaction(g, sites, txs[0]), sites, txs[1..])
  }

  /**
   * `ConstructGraph`: the waits-for graph of the transactions, built in
   * table order.
   */
  function ConstructGraph(sites: seq<Site>, txs: seq<Transaction>): (r: Graph)
    ensures UniqueNames(txs) ==> WellFormed(r)
    ensures UniqueNames(txs) ==>
      forall i, x :: 0 <= i < |txs| ==> (x in Neighbors(r, txs[i].name) <==> WaitsOn(sites, txs[i], x))
  {
    var r := BuildFrom(Empty(), sites, txs);
    assert UniqueNames(txs) ==> (
      && WellFormed(r)
      && forall i, x :: 0 <= i < |txs| ==> (x in Neighbors(r, txs[i].name) <==> WaitsOn(sites, txs[i], x))) by {
      if UniqueNames(txs) {
        BuildFromSpec(Empty(), sites, txs);
      }
    }
    r
  }

  lemma {:induction false} BuildFromSpec(g: Graph, sites: seq<Site>, txs: seq<Transaction>)
    requires UniqueNames(txs)
    requires forall i :: 0 <= i < |txs| ==> txs[i].name !in Vertices(g)
    ensures var r := BuildFrom(g, sites, txs);
      && (forall v :: v in Vertices(r) <==> v in Vertices(g) || exists i :: 0 <= i < |txs| && txs[i].name == v && InGraph(sites, txs[i]))
      && (forall i, x :: 0 <= i < |txs| ==> (x in Neighbors(r, txs[i].name) <==> WaitsOn(sites, txs[i], x)))
      && (forall v :: (forall i :: 0 <= i < |txs| ==> txs[i].name != v) ==> Neighbors(r, v) == Neighbors(g, v))
      && (WellFormed(g) ==> WellFormed(r))
    decreases |txs|
  {
    if txs != [] {
      var t := txs[0];
      var g1 := AddTransaction(g, sites, t);
      AddTransactionSpec(g, sites, t);
      var rest := txs[1..];
      assert forall i :: 0 <= i < |rest| ==> rest[i] == txs[i + 1];
      BuildFromSpec(g1, sites, rest);
      var r := BuildFrom(g1, sites, rest);
      forall v | v in Vertices(r)
        ensures v in Vertices(g) || exists i :: 0 <= i < |txs| && txs[i].name == v && InGraph(sites, txs[i])
      {
        if v !in Vertices(g1) {
          var i :| 0 <= i < |rest| && rest[i].name == v && InGraph(sites, rest[i]);
          assert txs[i + 1].name == v;
        }
      }
      forall v | exists i :: 0 <= i < |txs| && txs[i].name == v && InGraph(sites, txs[i])
        ensures v in Vertices(r)
      {
        var i :| 0 <= i < |txs| && txs[i].name == v && InGraph(sites, txs[i]);
        if i > 0 {
          assert rest[i - 1].name == v;
        }
      }
      forall i, x | 0 <= i < |txs|
        ensures x in Neighbors(r, txs[i].name) <==> WaitsOn(sites, txs[i], x)
      {
        if i == 0 {
          assert forall j :: 0 <= j < |rest| ==> rest[j].name != t.name;
        } else {
          assert rest[i - 1] == txs[i];
        }
      }
    }
  }

  /**
   * The graph has a node for exactly the transactions that belong in it,
   * the edges of each are exactly its waits, and every other name has no
   * outgoing edge.
   */
  lemma ConstructGraphSpec(sites: seq<Site>, txs: seq<Transaction>)
    requires UniqueNames(txs)
    ensures var g := ConstructGraph(sites, txs);
      && WellFormed(g)
      && (forall v :: v in Vertices(g) <==> exists i :: 0 <= i < |txs| && txs[i].name == v && InGraph(sites, txs[i]))
      && (forall i, x :: 0 <= i < |txs| ==> (x in Neighbors(g, txs[i].name) <==> WaitsOn(sites, txs[i], x)))
      && (forall v :: (forall i :: 0 <= i < |txs| ==> txs[i].name != v) ==> Neighbors(g, v) == [])
  {
    BuildFromSpec(Empty(), sites, txs);
  }

  // ---------------------------------------------------------------------
  // Cycles

  /** `p` walks along edges of `g` and ends where it starts. */
  predicate IsCycle(g: Graph, p: seq<string>) {
    && |p| >= 2 && p[0] == p[|p| - 1]
    && forall i :: 0 <= i < |p| - 1 ==> p[i + 1] in Neighbors(g, p[i])
  }

  ghost predicate Acyclic(g: Graph) {
    forall p :: !IsCycle(g, p)
  }

  /** The names of `g` not yet in `visited`: what bounds the search. */
  function Unvisited(g: Graph, visited: seq<string>): set<string> {
    Universe(g) - set x | x in visited
  }

  /**
   * `HasCycle` over the neighbour list `ns`, with the visited list shared by
   * the whole search and never popped: true as soon as a neighbour has been
   * seen before, anywhere in the search. Returns the visited list as it
   * stands when the search stops.
   */
  function Search(g: Graph, ns: seq<string>, visited: seq<string>): (r: (bool, seq<string>))
    requires forall x :: x in ns ==> x in Universe(g)
    ensures visited <= r.1
    ensures forall x :: x in r.1 ==> x in visited || x in Universe(g)
    decreases |Unvisited(g, visited)|, |ns|
  {
    if ns == [] then (false, visited)
    else if ns[0] in visited then (true, visited)
    else
      var next := visited + [ns[0]];
      UnvisitedShrinks(g, visited, ns[0]);
      var (found, seen) := Search(g, Neighbors(g, ns[0]), next);
      if found then (true, seen)
      else
        UnvisitedMonotone(g, visited, seen);
        Search(g, ns[1..], seen)
  }

  lemma UnvisitedShrinks(g: Graph, visited: seq<string>, x: string)
    requires x in Universe(g) && x !in visited
    ensures |Unvisited(g, visited + [x])| < |Unvisited(g, visited)|
  {
    assert Unvisited(g, visited + [x]) == Unvisited(g, visited) - {x};
  }

  lemma UnvisitedMonotone(g: Graph, a: seq<string>, b: seq<string>)
    requires a <= b
    ensures |Unvisited(g, b)| <= |Unvisited(g, a)|
  {
    assert forall x :: x in a ==> x in b;
    SubsetSmaller(Unvisited(g, b), Unvisited(g, a));
  }

  lemma SubsetSmaller(a: set<string>, b: set<string>)
    requires a <= b
    ensures |a| <= |b|
  {
    assert b == a + (b - a);
  }

  /**
   * `GetCycle`: the visited list of the first node, in node order, whose
   * search reports a cycle; none when no search does.
   */
  function GetCycle(g: Graph): (r: Option<seq<string>>)
    ensures r.Some? ==> |r.value| > 0 && r.value[0] in Vertices(g)
    ensures r.Some? ==> forall x :: x in r.value ==> x in Universe(g)
  {
    GetCycleFrom(g, 0)
  }

  function GetCycleFrom(g: Graph, j: nat): (r: Option<seq<string>>)
    ensures r.Some? ==> |r.value| > 0 && r.value[0] in Vertices(g)
    ensures r.Some? ==> forall x :: x in r.value ==> x in Universe(g)
    decreases |g.nodes| - j
  {
    if j >= |g.nodes| then None
    else
      var (found, seen) := Search(g, g.nodes[j].neighbors, [g.nodes[j].vertex]);
      if found then Some(seen) else GetCycleFrom(g, j + 1)
  }

  predicate Distinct(s: seq<string>) {
    forall i, j :: 0 <= i < j < |s| ==> s[i] != s[j]
  }

  /** Every neighbour of `v[i]` appears in `v` after position `i`. */
  predicate Forward(g: Graph, v: seq<string>, i: int)
    requires 0 <= i < |v|
  {
    forall y :: y in Neighbors(g, v[i]) ==> exists k :: i < k < |v| && v[k] == y
  }

  /** The search only appends names it has not seen, so the visited list never repeats a name. */
  lemma {:induction false} SearchDistinct(g: Graph, ns: seq<string>, visited: seq<string>)
    requires forall x :: x in ns ==> x in Universe(g)
    requires Distinct(visited)
    ensures Distinct(Search(g, ns, visited).1)
    decreases |Unvisited(g, visited)|, |ns|
  {
    if ns != [] && ns[0] !in visited {
      var next := visited + [ns[0]];
      UnvisitedShrinks(g, visited, ns[0]);
      SearchDistinct(g, Neighbors(g, ns[0]), next);
      var (found, seen) := Search(g, Neighbors(g, ns[0]), next);
      if !found {
        UnvisitedMonotone(g, visited, seen);
        SearchDistinct(g, ns[1..], seen);
      }
    }
  }

  /** A search that finds nothing has appended every neighbour it was given. */
  lemma {:induction false} SearchCovers(g: Graph, ns: seq<string>, visited: seq<string>)
    requires forall x :: x in ns ==> x in Universe(g)
    requires !Search(g, ns, visited).0
    ensures var r := Search(g, ns, visited).1;
      forall x :: x in ns ==> exists k :: |visited| <= k < |r| && r[k] == x
    decreases |Unvisited(g, visited)|, |ns|
  {
    if ns != [] {
      var next := visited + [ns[0]];
      UnvisitedShrinks(g, visited, ns[0]);
      var (found, seen) := Search(g, Neighbors(g, ns[0]), next);
      UnvisitedMonotone(g, visited, seen);
      SearchCovers(g, ns[1..], seen);
      var r := Search(g, ns[1..], seen).1;
      assert r[|visited|] == ns[0] by {
        assert seen <= r && next <= seen;
      }
      forall x | x in ns
        ensures exists k :: |visited| <= k < |r| && r[k] == x
      {
        if x != ns[0] {
          assert x in ns[1..];
        }
      }
    }
  }

  /**
   * A search that finds nothing leaves every name it appended with all of
   * its neighbours after it.
   */
  lemma {:induction false} SearchForward(g: Graph, ns: seq<string>, visited: seq<string>)
    requires forall x :: x in ns ==> x in Universe(g)
    requires !Search(g, ns, visited).0
    ensures var r := Search(g, ns, visited).1;
      forall i :: |visited| <= i < |r| ==> Forward(g, r, i)
    decreases |Unvisited(g, visited)|, |ns|
  {
    if ns != [] {
      var next := visited + [ns[0]];
      UnvisitedShrinks(g, visited, ns[0]);
      var (found, seen) := Search(g, Neighbors(g, ns[0]), next);
      SearchForward(g, Neighbors(g, ns[0]), next);
      SearchCovers(g, Neighbors(g, ns[0]), next);
      UnvisitedMonotone(g, visited, seen);
      SearchForward(g, ns[1..], seen);
      var r := Search(g, ns[1..], seen).1;
      assert r == Search(g, ns, visited).1;
      assert next <= seen <= r;
      forall i | |visited| <= i < |r|
        ensures Forward(g, r, i)
      {
        if i == |visited| {
          assert r[i] == next[i] == ns[0];
          forall y | y in Neighbors(g, r[i])
            ensures exists k :: i < k < |r| && r[k] == y
          {
            var k :| |next| <= k < |seen| && seen[k] == y;
            assert r[k] == y;
          }
        } else if i < |seen| {
          ForwardExtends(g, seen, r, i);
        }
      }
    }
  }

  /** Appending to a list keeps every position's neighbours after it. */
  lemma ForwardExtends(g: Graph, v: seq<string>, w: seq<string>, i: int)
    requires v <= w && 0 <= i < |v|
    requires Forward(g, v, i)
    ensures Forward(g, w, i)
  {
    forall y | y in Neighbors(g, w[i])
      ensures exists k :: i < k < |w| && w[k] == y
    {
      var k :| i < k < |v| && v[k] == y;
      assert w[k] == y;
    }
  }

  /** Following a walk through a list where every name has its neighbours after it, positions strictly increase. */
  lemma {:induction false} WalkAdvances(g: Graph, v: seq<string>, p: seq<string>, t: nat)
    requires t < |p| && |v| > 0 && v[0] == p[0]
    requires forall i :: 0 <= i < |v| ==> Forward(g, v, i)
    requires forall i :: 0 <= i < |p| - 1 ==> p[i + 1] in Neighbors(g, p[i])
    ensures exists k :: t <= k < |v| && v[k] == p[t]
  {
    if t > 0 {
      WalkAdvances(g, v, p, t - 1);
      var k :| t - 1 <= k < |v| && v[k] == p[t - 1];
      assert Forward(g, v, k);
      assert p[t] in Neighbors(g, v[k]);
    }
  }

  /** The search from the node of a vertex on a cycle reports a cycle. */
  lemma SearchFindsCycle(g: Graph, p: seq<string>)
    requires IsCycle(g, p)
    ensures FindNode(g, p[0]).Some?
    ensures var j := FindNode(g, p[0]).value;
      Search(g, g.nodes[j].neighbors, [g.nodes[j].vertex]).0
  {
    assert p[1] in Neighbors(g, p[0]);
    var j := FindNode(g, p[0]).value;
    var ns := g.nodes[j].neighbors;
    var (found, v) := Search(g, ns, [p[0]]);
    if !found {
      SearchDistinct(g, ns, [p[0]]);
      SearchCovers(g, ns, [p[0]]);
      SearchForward(g, ns, [p[0]]);
      assert Forward(g, v, 0);
      WalkAdvances(g, v, p, |p| - 1);
      assert false;
    }
  }

  lemma {:induction false} GetCycleFromReaches(g: Graph, j0: nat, j: nat)
    requires j0 <= j < |g.nodes| && Search(g, g.nodes[j].neighbors, [g.nodes[j].vertex]).0
    ensures GetCycleFrom(g, j0).Some?
    decreases j - j0
  {
    if j0 < j {
      GetCycleFromReaches(g, j0 + 1, j);
    }
  }

  /** If the graph has a cycle, `GetCycle` reports one: it returns nothing only for an acyclic graph. */
  lemma GetCycleComplete(g: Graph)
    ensures GetCycle(g).None? ==> Acyclic(g)
  {
    forall p | IsCycle(g, p)
      ensures GetCycle(g).Some?
    {
      SearchFindsCycle(g, p);
      GetCycleFromReaches(g, 0, FindNode(g, p[0]).value);
    }
  }

  /** Along a path, a rank that drops on every edge has dropped by at least the path length. */
  lemma {:induction false} RankDrops(g: Graph, rank: string -> int, p: seq<string>, t: nat)
    requires t < |p|
    requires forall v, u :: u in Neighbors(g, v) ==> rank(u) < rank(v)
    requires forall i :: 0 <= i < |p| - 1 ==> p[i + 1] in Neighbors(g, p[i])
    ensures rank(p[t]) <= rank(p[0]) - t
  {
    if t > 0 {
      RankDrops(g, rank, p, t - 1);
    }
  }

  /** A graph whose edges all go down some ranking has no cycle. */
  lemma RankedAcyclic(g: Graph, rank: string -> int)
    requires forall v, u :: u in Neighbors(g, v) ==> rank(u) < rank(v)
    ensures Acyclic(g)
  {
    forall p
      ensures !IsCycle(g, p)
    {
      if IsCycle(g, p) {
        RankDrops(g, rank, p, |p| - 1);
        assert false;
      }
    }
  }

  /** A -> B, A -> C, B -> D, C -> D: two paths to D and no cycle. */
  function Diamond(): Graph {
    Graph([Node("A", ["B", "C"]), Node("B", ["D"]), Node("C", ["D"]), Node("D", [])])
  }

  /** The diamond has no cycle: every edge goes down the ranking A > B, C > D. */
  lemma DiamondAcyclic()
    ensures Acyclic(Diamond())
  {
    var g := Diamond();
    var rank := (v: string) => if v == "A" then 3 else if v == "B" || v == "C" then 2 else 1;
    forall v, u | u in Neighbors(g, v)
      ensures rank(u) < rank(v)
    {
      DiamondNeighbors(v);
    }
    RankedAcyclic(g, rank);
  }

  lemma DiamondNeighbors(v: string)
    ensures Neighbors(Diamond(), v) ==
      if v == "A" then ["B", "C"] else if v == "B" || v == "C" then ["D"] else []
  {
    var g := Diamond();
    assert g.nodes[0].vertex == "A" && g.nodes[1].vertex == "B" && g.nodes[2].vertex == "C" && g.nodes[3].vertex == "D";
  }

  /**
   * The reported set is not always a cycle: on the acyclic diamond the search
   * from A reaches D through B, then meets D again through C, and the whole
   * visited list is reported.
   */
  lemma DiamondIsReported()
    ensures GetCycle(Diamond()) == Some(["A", "B", "D", "C"])
  {
    var g := Diamond();
    DiamondNeighbors("A");
    DiamondNeighbors("B");
    DiamondNeighbors("C");
    DiamondNeighbors("D");
    assert "D" in Universe(g) && "C" in Universe(g) && "B" in Universe(g);
    DiamondSteps();
    assert Search(g, g.nodes[0].neighbors, [g.nodes[0].vertex]) == (true, ["A", "B", "D", "C"]);
  }

  lemma DiamondSteps()
    ensures "B" in Universe(Diamond()) && "C" in Universe(Diamond())
    ensures Search(Diamond(), ["B", "C"], ["A"]) == (true, ["A", "B", "D", "C"])
  {
    var g := Diamond();
    DiamondNeighbors("B");
    assert g.nodes[1].vertex == "B";
    assert "B" in Universe(g) && "B" !in ["A"];
    assert ["A"] + ["B"] == ["A", "B"];
    DiamondStep2();
    assert ["B", "C"][1..] == ["C"];
    DiamondStep3();
  }

  lemma DiamondStep2()
    ensures "D" in Universe(Diamond())
    ensures Search(Diamond(), ["D"], ["A", "B"]) == (false, ["A", "B", "D"])
  {
    var g := Diamond();
    assert g.nodes[3].vertex == "D";
    DiamondNeighbors("D");
    assert "D" in Universe(g) && "D" !in ["A", "B"];
    assert ["A", "B"] + ["D"] == ["A", "B", "D"];
    assert Search(g, [], ["A", "B", "D"]) == (false, ["A", "B", "D"]);
    assert ["D"][1..] == [];
  }

  lemma DiamondStep3()
    ensures "C" in Universe(Diamond())
    ensures Search(Diamond(), ["C"], ["A", "B", "D"]) == (true, ["A", "B", "D", "C"])
  {
    var g := Diamond();
    assert g.nodes[2].vertex == "C" && g.nodes[3].vertex == "D";
    DiamondNeighbors("C");
    assert "C" in Universe(g) && "C" !in ["A", "B", "D"];
    assert ["A", "B", "D"] + ["C"] == ["A", "B", "D", "C"];
    assert "D" in ["A", "B", "D", "C"];
  }

  // ---------------------------------------------------------------------
  // Killing the youngest

  /** The start time of the transaction named `name`; -1 for a name not in the table. */
  function StartOf(txs: seq<Transaction>, name: string): int {
    match IndexOf(txs, name)
    case None => -1
    case Some(k) => txs[k].startTime
  }

  /**
   * `OrderByDescending(t => t.StartTime).First()`: the first name of the set,
   * in its insertion order, with the largest start time.
   */
  function Youngest(txs: seq<Transaction>, c: seq<string>): (r: string)
    requires |c| > 0
    ensures r in c
    ensures forall x :: x in c ==> StartOf(txs, x) <= StartOf(txs, r)
    ensures exists i :: 0 <= i < |c| && c[i] == r && forall k :: 0 <= k < i ==> StartOf(txs, c[k]) < StartOf(txs, r)
  {
    var i := YoungestIndex(txs, c);
    assert forall x :: x in c ==> exists k :: 0 <= k < |c| && c[k] == x;
    c[i]
  }

  /** The position of the first name with the latest start in `c`. */
  function YoungestIndex(txs: seq<Transaction>, c: seq<string>): (i: nat)
    requires |c| > 0
    ensures i < |c|
    ensures forall k :: 0 <= k < |c| ==> StartOf(txs, c[k]) <= StartOf(txs, c[i])
    ensures forall k :: 0 <= k < i ==> StartOf(txs, c[k]) < StartOf(txs, c[i])
  {
    if |c| == 1 then 0
    else
      var j := YoungestIndex(txs, c[1..]);
      assert forall k :: 0 < k < |c| ==> c[k] == c[1..][k - 1];
      if StartOf(txs, c[0]) >= StartOf(txs, c[1..][j]) then 0 else j + 1
  }

  /**
   * `KillYoungest` on the chosen name: the transaction is aborted at the
   * current time and its locks are released at the sites it visited that
   * are up. Its buffered operation, if any, is left in place.
   */
  function Kill(db: Db, name: string): (r: Db)
    ensures Evolves(db, r)
    ensures BuffersHaveValues(db.txs) ==> BuffersHaveValues(r.txs)
    ensures IndexOf(db.txs, name).None? ==> r == db
    ensures IndexOf(db.txs, name).Some? ==> var k := IndexOf(db.txs, name).value;
      && r.txs[k].state == Aborted && r.txs[k].endTime == db.time
      && r.txs[k].buffer == db.txs[k].buffer && r.txs[k].waitTime == db.txs[k].waitTime
      && r.sites == ReleaseLocks(db.sites, db.txs[k])
      && r.events == db.events + [DeadlockAbortEvent(name)]
      && (forall j :: 0 <= j < |db.txs| && j != k ==> r.txs[j] == db.txs[j])
  {
    match IndexOf(db.txs, name)
    case None => db
    case Some(k) =>
      var t := db.txs[k];
      db.(sites := ReleaseLocks(db.sites, t),
          txs := db.txs[k := t.(endTime := db.time, state := Aborted)],
          events := db.events + [DeadlockAbortEvent(name)])
  }

  /**
   * The `DetectDeadlocks` loop: while `GetCycle` reports a set, kill its
   * youngest member and remove it from the graph. Returns the final state,
   * the final graph and the victims in order.
   */
  function KillLoop(db: Db, g: Graph): (r: (Db, Graph, seq<string>))
    ensures Evolves(db, r.0)
    ensures BuffersHaveValues(db.txs) ==> BuffersHaveValues(r.0.txs)
    decreases Size(g)
  {
    match GetCycle(g)
    case None => (db, g, [])
    case Some(c) =>
      var y := Youngest(db.txs, c);
      RemoveShrinks(g, y);
      var (db', g', victims) := KillLoop(Kill(db, y), Remove(g, y));
      EvolvesTransitive(db, Kill(db, y), db');
      (db', g', [y] + victims)
  }

  /** The loop stops only when no cycle is reported, so the graph it leaves is acyclic. */
  lemma {:induction false} KillLoopLeavesNoCycle(db: Db, g: Graph)
    ensures GetCycle(KillLoop(db, g).1).None?
    ensures Acyclic(KillLoop(db, g).1)
    decreases Size(g)
  {
    match GetCycle(g)
    case None =>
      GetCycleComplete(g);
    case Some(c) =>
      var y := Youngest(db.txs, c);
      RemoveShrinks(g, y);
      KillLoopLeavesNoCycle(Kill(db, y), Remove(g, y));
  }

  /**
   * Every victim is a name of the graph, and on a well-formed graph whose
   * edges all lead to nodes each round deletes one node, so there are at
   * most as many rounds as nodes.
   */
  lemma {:induction false} KillLoopBound(db: Db, g: Graph)
    ensures forall v :: v in KillLoop(db, g).2 ==> v in Universe(g)
    ensures WellFormed(g) && Closed(g) ==> |KillLoop(db, g).2| <= |g.nodes|
    decreases Size(g)
  {
    match GetCycle(g)
    case None =>
    case Some(c) =>
      var y := Youngest(db.txs, c);
      var g' := Remove(g, y);
      RemoveShrinks(g, y);
      KillLoopBound(Kill(db, y), g');
      RemoveStaysInside(g, y);
      if WellFormed(g) && Closed(g) {
        RemoveDeletesVertex(g, y);
        ClosedUniverse(g);
      }
  }

  /**
   * `DetectDeadlocks`: build the graph of the active transactions and kill
   * until no cycle is reported.
   */
  function DetectDeadlocks(db: Db): (r: Db)
    ensures Evolves(db, r)
    ensures BuffersHaveValues(db.txs) ==> BuffersHaveValues(r.txs)
  {
    KillLoop(db, ConstructGraph(db.sites, db.txs)).0
  }
}
