/**
 * The transaction coordinator (src/Transactions/TransactionManager.cs):
 * begin, read, write and end; one-slot buffering of an operation that
 * cannot proceed; the commit decision; and the reruns of waiting
 * transactions, in order of the time they started waiting.
 */
module TransactionManager {
  import opened Wrappers
  import opened Text
  import opened Transactions
  import opened Sites
  import opened Outcomes
  import opened Database
  import Operations
  import SiteManager
  import LockManager
  import DeadlockManager

  /**
   * How a rerun treats a transaction whose buffer an earlier step of the
   * same pass has emptied: `AsWritten` runs the empty buffer, which fails;
   * `SkipCleared` passes over it.
   */
  datatype RerunMode = AsWritten | SkipCleared

  /** Replaces transaction `i`; nothing else changes. */
  function SetTx(db: Db, i: nat, t: Transaction): (r: Db)
    requires i < |db.txs|
    ensures r.txs == db.txs[i := t] && r.sites == db.sites && r.time == db.time && r.events == db.events
  {
    db.(txs := db.txs[i := t])
  }

  // ---------------------------------------------------------------------
  // Read

  /** Site position `k` holds `name`, is Stable and grants `t` a read lock on it. */
  predicate GrantsRead(sites: seq<Site>, k: nat, t: Transaction, name: string)
    requires k < |sites| && HoldsVariable(sites[k], name)
  {
    Sites.GetReadLock(sites[k], t, name).0
  }

  /** The first position among `ps`, in their order, whose site grants the read lock. */
  function FirstGrant(sites: seq<Site>, ps: seq<nat>, t: Transaction, name: string): (r: Option<nat>)
    requires forall a :: 0 <= a < |ps| ==> ps[a] < |sites| && HoldsVariable(sites[ps[a]], name)
    ensures r.Some? ==> exists a :: (0 <= a < |ps| && ps[a] == r.value && GrantsRead(sites, r.value, t, name)
      && forall b :: 0 <= b < a ==> !GrantsRead(sites, ps[b], t, name))
    ensures r.None? ==> forall a :: 0 <= a < |ps| ==> !GrantsRead(sites, ps[a], t, name)
  {
    if ps == [] then None
    else if GrantsRead(sites, ps[0], t, name) then Some(ps[0])
    else
      var r := FirstGrant(sites, ps[1..], t, name);
      assert forall a :: 0 < a < |ps| ==> ps[1..][a - 1] == ps[a];
      r
  }

  /** Site position `k` is Stable and holds `name`: one of the sites a read or write goes to. */
  predicate StableHolder(sites: seq<Site>, k: int, name: string) {
    0 <= k < |sites| && sites[k].state == Stable && HoldsVariable(sites[k], name)
  }

  /** Position `k` is the first Stable holder of `name`, in site order, that grants `t` a read lock. */
  predicate FirstGranter(sites: seq<Site>, t: Transaction, name: string, k: int) {
    && StableHolder(sites, k, name) && GrantsRead(sites, k, t, name)
    && forall j :: 0 <= j < k && StableHolder(sites, j, name) ==> !GrantsRead(sites, j, t, name)
  }

  /** The search over the Stable holders finds exactly the first granter. */
  lemma FirstGrantSpec(sites: seq<Site>, t: Transaction, name: string)
    ensures var g := FirstGrant(sites, SiteManager.Holders(sites, name, Stable), t, name);
      && (g.Some? ==> FirstGranter(sites, t, name, g.value))
      && (g.None? ==> forall k :: StableHolder(sites, k, name) ==> !GrantsRead(sites, k, t, name))
  {
    var ps := SiteManager.Holders(sites, name, Stable);
    StableHolderPositions(sites, name);
    FirstGrantOver(sites, ps, t, name);
  }

  /** `FirstGrant` over the Stable holders listed in increasing order finds the first granter. */
  lemma FirstGrantOver(sites: seq<Site>, ps: seq<nat>, t: Transaction, name: string)
    requires forall a :: 0 <= a < |ps| ==> ps[a] < |sites| && HoldsVariable(sites[ps[a]], name)
    requires forall a, b :: 0 <= a < b < |ps| ==> ps[a] < ps[b]
    requires forall k :: k in ps <==> StableHolder(sites, k, name)
    ensures var g := FirstGrant(sites, ps, t, name);
      && (g.Some? ==> FirstGranter(sites, t, name, g.value))
      && (g.None? ==> forall k :: StableHolder(sites, k, name) ==> !GrantsRead(sites, k, t, name))
  {
    var g := FirstGrant(sites, ps, t, name);
    if g.Some? {
      var k := g.value;
      var a :| 0 <= a < |ps| && ps[a] == k && GrantsRead(sites, k, t, name)
        && forall b :: 0 <= b < a ==> !GrantsRead(sites, ps[b], t, name);
      assert StableHolder(sites, k, name) by { assert k in ps; }
      forall j | 0 <= j < k && StableHolder(sites, j, name)
        ensures !GrantsRead(sites, j, t, name)
      {
        EarlierRefuses(sites, ps, t, name, a, j);
      }
    } else {
      forall k | StableHolder(sites, k, name)
        ensures !GrantsRead(sites, k, t, name)
      {
        assert k in ps;
      }
    }
  }

  /** A Stable holder before the `a`-th listed one is listed earlier, so it refused if all earlier ones did. */
  lemma EarlierRefuses(sites: seq<Site>, ps: seq<nat>, t: Transaction, name: string, a: nat, j: nat)
    requires forall c :: 0 <= c < |ps| ==> ps[c] < |sites| && HoldsVariable(sites[ps[c]], name)
    requires forall c, d :: 0 <= c < d < |ps| ==> ps[c] < ps[d]
    requires forall k :: k in ps <==> StableHolder(sites, k, name)
    requires a < |ps| && forall b :: 0 <= b < a ==> !GrantsRead(sites, ps[b], t, name)
    requires j < ps[a] && StableHolder(sites, j, name)
    ensures !GrantsRead(sites, j, t, name)
  {
    assert j in ps;
    var b :| 0 <= b < |ps| && ps[b] == j;
    SortedIndices(ps, b, a);
  }

  /** In a strictly increasing list, a smaller entry sits at an earlier index. */
  lemma SortedIndices(ps: seq<nat>, b: nat, a: nat)
    requires forall c, d :: 0 <= c < d < |ps| ==> ps[c] < ps[d]
    requires b < |ps| && a < |ps| && ps[b] < ps[a]
    ensures b < a
  {
  }

  /** Two first granters are the same site. */
  lemma FirstGranterUnique(sites: seq<Site>, t: Transaction, name: string, k: int, j: int)
    requires FirstGranter(sites, t, name, k) && FirstGranter(sites, t, name, j)
    ensures k == j
  {
  }

  /** Transaction `i` reads `name` at site position `k`: the lock, the visit, the cleared buffer and the notice. */
  function Serve(db: Db, i: nat, k: nat, name: string): (r: Db)
    requires i < |db.txs| && Pending(db.txs[i]) && k < |db.sites| && HoldsVariable(db.sites[k], name)
    ensures Evolves(db, r)
    ensures BuffersHaveValues(db.txs) ==> BuffersHaveValues(r.txs)
    ensures r.txs[i].state == Running && r.txs[i].buffer == None
    ensures db.sites[k].id in r.txs[i].visits
  {
    var t := db.txs[i];
    db.(sites := db.sites[k := Sites.GetReadLock(db.sites[k], t, name).1],
        txs := db.txs[i := ClearBuffer(AddSite(t, db.sites[k].id, db.time))],
        events := db.events + [ReadEvent(t.name, name, db.sites[k].id)])
  }

  /**
   * `ReadVariable` for transaction `i`: buffered as Waiting when no Stable
   * site holds the variable; otherwise served by the first Stable holder, in
   * site order, that grants a read lock, or buffered as Blocked when none does.
   */
  function ReadVariable(db: Db, i: nat, op: BufferedOp): (r: Db)
    requires i < |db.txs| && Pending(db.txs[i]) && op.kind == Operations.Read
    ensures Evolves(db, r)
    ensures BuffersHaveValues(db.txs) ==> BuffersHaveValues(r.txs)
  {
    var t := db.txs[i];
    var name := op.variable;
    var ps := SiteManager.Holders(db.sites, name, Stable);
    if ps == [] then
      SetTx(db, i, BufferOperation(t, op, Waiting, db.time))
    else
      StableHolderPositions(db.sites, name);
      match FirstGrant(db.sites, ps, t, name)
      case None =>
        SetTx(db, i, BufferOperation(t, op, Blocked, db.time))
      case Some(k) =>
        assert k in ps;
        Serve(db, i, k, name)
  }

  /**
   * The three outcomes of a read: Waiting when no Stable site holds the
   * variable, Blocked when every Stable holder refuses the lock, and
   * otherwise served by the first granter.
   */
  lemma ReadVariableSpec(db: Db, i: nat, op: BufferedOp)
    requires i < |db.txs| && Pending(db.txs[i]) && op.kind == Operations.Read
    ensures var r := ReadVariable(db, i, op);
      && ((forall k :: !StableHolder(db.sites, k, op.variable)) ==>
            r == SetTx(db, i, BufferOperation(db.txs[i], op, Waiting, db.time)))
      && (((exists k :: StableHolder(db.sites, k, op.variable))
            && (forall k :: StableHolder(db.sites, k, op.variable) ==> !GrantsRead(db.sites, k, db.txs[i], op.variable))) ==>
            r == SetTx(db, i, BufferOperation(db.txs[i], op, Blocked, db.time)))
      && (forall k :: FirstGranter(db.sites, db.txs[i], op.variable, k) ==> r == Serve(db, i, k, op.variable))
  {
    var t := db.txs[i];
    var name := op.variable;
    var ps := SiteManager.Holders(db.sites, name, Stable);
    FirstGrantSpec(db.sites, t, name);
    StableHolderPositions(db.sites, name);
    if ps == [] {
      assert forall k :: StableHolder(db.sites, k, name) ==> k in ps;
    } else {
      assert StableHolder(db.sites, ps[0], name) by { assert ps[0] in ps; }
      match FirstGrant(db.sites, ps, t, name)
      case None =>
      case Some(k) =>
        assert forall j :: FirstGranter(db.sites, t, name, j) ==> j == k;
    }
  }

  // ---------------------------------------------------------------------
  // Write

  /** Site position `k` holds `name` and grants `t` a write lock on it. */
  predicate GrantsWrite(sites: seq<Site>, k: nat, t: Transaction, name: string)
    requires k < |sites| && HoldsVariable(sites[k], name)
  {
    Sites.GetWriteLock(sites[k], t, name).0
  }

  /** Distinct positions of sites that hold `name`. */
  predicate HolderPositions(sites: seq<Site>, ps: seq<nat>, name: string) {
    && (forall a :: 0 <= a < |ps| ==> ps[a] < |sites| && HoldsVariable(sites[ps[a]], name))
    && (forall a, b :: 0 <= a < b < |ps| ==> ps[a] != ps[b])
  }

  /**
   * The lock loop of `WriteVariable`: asks every site in `ps` for a write
   * lock, records a visit at each site that grants one, and reports whether
   * all of them did. A denial does not stop the loop.
   */
  function LockAll(sites: seq<Site>, ps: seq<nat>, t: Transaction, name: string, now: int): (r: (bool, seq<Site>, Transaction))
    requires HolderPositions(sites, ps, name)
    ensures |r.1| == |sites|
    ensures r.2 == t.(visits := r.2.visits)
    decreases |ps|
  {
    if ps == [] then (true, sites, t)
    else
      var k := ps[0];
      var (granted, site) := Sites.GetWriteLock(sites[k], t, name);
      var t' := if granted then AddSite(t, sites[k].id, now) else t;
      SkipFirst(sites, ps, k, site, name);
      var rest := LockAll(sites[k := site], ps[1..], t', name, now);
      (granted && rest.0, rest.1, rest.2)
  }

  /** Updating the first position keeps the rest a list of holder positions, with their sites unchanged. */
  lemma SkipFirst(sites: seq<Site>, ps: seq<nat>, k: nat, site: Site, name: string)
    requires HolderPositions(sites, ps, name) && ps != [] && k == ps[0] && SameLayout(sites[k], site)
    ensures HolderPositions(sites[k := site], ps[1..], name)
    ensures forall a :: 0 <= a < |ps[1..]| ==> sites[k := site][ps[1..][a]] == sites[ps[a + 1]]
  {
    assert forall a :: 0 <= a < |ps| - 1 ==> ps[1..][a] == ps[a + 1] && ps[a + 1] != k;
  }

  /** All locks are granted exactly when every site in `ps` grants one. */
  lemma {:induction false} LockAllGranted(sites: seq<Site>, ps: seq<nat>, t: Transaction, name: string, now: int)
    requires HolderPositions(sites, ps, name)
    ensures LockAll(sites, ps, t, name, now).0 <==> forall a :: 0 <= a < |ps| ==> GrantsWrite(sites, ps[a], t, name)
    decreases |ps|
  {
    if ps != [] {
      var k := ps[0];
      var (granted, site) := Sites.GetWriteLock(sites[k], t, name);
      var t' := if granted then AddSite(t, sites[k].id, now) else t;
      SkipFirst(sites, ps, k, site, name);
      LockAllGranted(sites[k := site], ps[1..], t', name, now);
      GrantsAfterFirst(sites, ps, site, t, t', name);
    }
  }

  /** After the first request, the later sites answer the next requests as they would have answered the first. */
  lemma GrantsAfterFirst(sites: seq<Site>, ps: seq<nat>, site: Site, t: Transaction, t': Transaction, name: string)
    requires HolderPositions(sites, ps, name) && ps != [] && SameLayout(sites[ps[0]], site) && t'.name == t.name
    ensures HolderPositions(sites[ps[0] := site], ps[1..], name)
    ensures forall a :: 0 < a < |ps| ==>
      GrantsWrite(sites, ps[a], t, name) == GrantsWrite(sites[ps[0] := site], ps[1..][a - 1], t', name)
  {
    SkipFirst(sites, ps, ps[0], site, name);
    forall a | 0 < a < |ps|
      ensures GrantsWrite(sites, ps[a], t, name) == GrantsWrite(sites[ps[0] := site], ps[1..][a - 1], t', name)
    {
      assert sites[ps[0] := site][ps[1..][a - 1]] == sites[ps[a]];
    }
  }

  /** Every site in `ps` takes the outcome of its own lock request; the other sites are untouched. */
  lemma {:induction false} LockAllSites(sites: seq<Site>, ps: seq<nat>, t: Transaction, name: string, now: int)
    requires HolderPositions(sites, ps, name)
    ensures var r := LockAll(sites, ps, t, name, now).1;
      forall k :: 0 <= k < |sites| ==> r[k] == if k in ps then Sites.GetWriteLock(sites[k], t, name).1 else sites[k]
    decreases |ps|
  {
    if ps != [] {
      var k := ps[0];
      var (granted, site) := Sites.GetWriteLock(sites[k], t, name);
      var t' := if granted then AddSite(t, sites[k].id, now) else t;
      SkipFirst(sites, ps, k, site, name);
      LockAllSites(sites[k := site], ps[1..], t', name, now);
      assert forall j :: 0 <= j < |sites| ==> (j in ps <==> j == k || j in ps[1..]);
      assert k !in ps[1..] by {
        assert forall a :: 0 <= a < |ps| - 1 ==> ps[1..][a] == ps[a + 1] && ps[a + 1] != k;
      }
    }
  }

  /** The ids of the sites in `ps` that grant `t` a write lock on `name`. */
  function GrantedIds(sites: seq<Site>, ps: seq<nat>, t: Transaction, name: string): set<int>
    requires HolderPositions(sites, ps, name)
  {
    set a | 0 <= a < |ps| && GrantsWrite(sites, ps[a], t, name) :: sites[ps[a]].id
  }

  /** Earlier visits keep their times; every new visit is at time `now`. */
  lemma {:induction false} LockAllVisitTimes(sites: seq<Site>, ps: seq<nat>, t: Transaction, name: string, now: int)
    requires HolderPositions(sites, ps, name)
    ensures var v := LockAll(sites, ps, t, name, now).2.visits;
      VisitsGrow(t.visits, v) && forall s :: s in v && s !in t.visits ==> v[s] == now
    decreases |ps|
  {
    if ps != [] {
      var k := ps[0];
      var (granted, site) := Sites.GetWriteLock(sites[k], t, name);
      var t' := if granted then AddSite(t, sites[k].id, now) else t;
      SkipFirst(sites, ps, k, site, name);
      LockAllVisitTimes(sites[k := site], ps[1..], t', name, now);
    }
  }

  /** The visited sites gain exactly the sites that granted a lock. */
  lemma {:induction false} LockAllVisitKeys(sites: seq<Site>, ps: seq<nat>, t: Transaction, name: string, now: int)
    requires HolderPositions(sites, ps, name)
    ensures LockAll(sites, ps, t, name, now).2.visits.Keys == t.visits.Keys + GrantedIds(sites, ps, t, name)
    decreases |ps|
  {
    if ps != [] {
      var k := ps[0];
      var (granted, site) := Sites.GetWriteLock(sites[k], t, name);
      var t' := if granted then AddSite(t, sites[k].id, now) else t;
      SkipFirst(sites, ps, k, site, name);
      var rest := LockAll(sites[k := site], ps[1..], t', name, now);
      assert LockAll(sites, ps, t, name, now).2 == rest.2;
      LockAllVisitKeys(sites[k := site], ps[1..], t', name, now);
      var head: set<int> := if granted then {sites[k].id} else {};
      var tail := GrantedIds(sites[k := site], ps[1..], t', name);
      assert t'.visits.Keys == t.visits.Keys + head;
      GrantedIdsSplit(sites, ps, t, name, site, t');
      UnionRegroup(t.visits.Keys, head, tail, GrantedIds(sites, ps, t, name), rest.2.visits.Keys);
    }
  }

  lemma UnionRegroup(keys: set<int>, head: set<int>, tail: set<int>, all: set<int>, r: set<int>)
    requires all == head + tail && r == (keys + head) + tail
    ensures r == keys + all
  {
  }

  /** The granted ids of a list are those of its head and of its tail, after the head's update. */
  lemma GrantedIdsSplit(sites: seq<Site>, ps: seq<nat>, t: Transaction, name: string, site: Site, t': Transaction)
    requires HolderPositions(sites, ps, name) && ps != [] && SameLayout(sites[ps[0]], site) && t'.name == t.name
    ensures HolderPositions(sites[ps[0] := site], ps[1..], name)
    ensures GrantedIds(sites, ps, t, name)
      == (if GrantsWrite(sites, ps[0], t, name) then {sites[ps[0]].id} else {}) + GrantedIds(sites[ps[0] := site], ps[1..], t', name)
  {
    var k := ps[0];
    SkipFirst(sites, ps, k, site, name);
    var tail := GrantedIds(sites[k := site], ps[1..], t', name);
    assert forall a :: 0 < a < |ps| ==> GrantsWrite(sites, ps[a], t, name) == GrantsWrite(sites[k := site], ps[1..][a - 1], t', name);
    forall s | s in tail ensures s in GrantedIds(sites, ps, t, name) {
      var a :| 0 <= a < |ps[1..]| && GrantsWrite(sites[k := site], ps[1..][a], t', name) && sites[k := site][ps[1..][a]].id == s;
      assert GrantsWrite(sites, ps[a + 1], t, name) && sites[ps[a + 1]].id == s;
    }
    forall s | s in GrantedIds(sites, ps, t, name)
      ensures s in (if GrantsWrite(sites, k, t, name) then {sites[k].id} else {}) + tail
    {
      var a :| 0 <= a < |ps| && GrantsWrite(sites, ps[a], t, name) && sites[ps[a]].id == s;
      if a > 0 {
        assert GrantsWrite(sites[k := site], ps[1..][a - 1], t', name) && sites[k := site][ps[1..][a - 1]].id == s;
      }
    }
  }

  /** Stores `value` in the copy of `name` at every site in `ps`. */
  function WriteAll(sites: seq<Site>, ps: seq<nat>, name: string, value: int): (r: seq<Site>)
    requires HolderPositions(sites, ps, name)
    ensures |r| == |sites|
    ensures forall k :: 0 <= k < |sites| ==> SameLayout(sites[k], r[k]) && r[k].locks == sites[k].locks && r[k].state == sites[k].state
    ensures forall k :: 0 <= k < |sites| && k !in ps ==> r[k] == sites[k]
    ensures forall a :: 0 <= a < |ps| ==> r[ps[a]] == WriteData(sites[ps[a]], name, value)
  {
    seq(|sites|, k requires 0 <= k < |sites| =>
      if k in ps then
        assert exists a :: 0 <= a < |ps| && ps[a] == k;
        WriteData(sites[k], name, value)
      else sites[k])
  }

  /** Every Stable holder of `name` grants `t` a write lock. */
  predicate AllGrantWrite(sites: seq<Site>, t: Transaction, name: string) {
    forall k :: 0 <= k < |sites| && StableHolder(sites, k, name) ==> GrantsWrite(sites, k, t, name)
  }

  /** The Stable holders, as `Holders` lists them, are holder positions without repeats. */
  lemma StableHolderPositions(sites: seq<Site>, name: string)
    ensures var ps := SiteManager.Holders(sites, name, Stable);
      HolderPositions(sites, ps, name) && forall k :: k in ps <==> StableHolder(sites, k, name)
  {
    var ps := SiteManager.Holders(sites, name, Stable);
    assert forall a :: 0 <= a < |ps| ==> ps[a] in ps;
  }

  /**
   * The lock phase of a write by transaction `i`: every Stable holder of
   * `name` is asked for a write lock and each granting site is visited. The
   * flag says whether all of them granted.
   */
  function LockPhase(db: Db, i: nat, name: string): (r: (bool, Db))
    requires i < |db.txs| && Pending(db.txs[i])
    ensures Evolves(db, r.1)
    ensures BuffersHaveValues(db.txs) ==> BuffersHaveValues(r.1.txs)
    ensures r.0 <==> AllGrantWrite(db.sites, db.txs[i], name)
    ensures r.1.events == db.events
    ensures r.1.txs == db.txs[i := db.txs[i].(visits := r.1.txs[i].visits)]
    ensures forall k :: 0 <= k < |db.sites| ==>
      r.1.sites[k].data == db.sites[k].data && r.1.sites[k].state == db.sites[k].state
    ensures forall k :: StableHolder(db.sites, k, name) ==>
      r.1.sites[k].locks == Sites.GetWriteLock(db.sites[k], db.txs[i], name).1.locks
      && (GrantsWrite(db.sites, k, db.txs[i], name) ==> db.sites[k].id in r.1.txs[i].visits)
  {
    var t := db.txs[i];
    var ps := SiteManager.Holders(db.sites, name, Stable);
    StableHolderPositions(db.sites, name);
    var (all, locked, t') := LockAll(db.sites, ps, t, name, db.time);
    LockOutcome(db.sites, t, name, db.time);
    UpdateEvolves(db, i, t', locked, db.events);
    (all, db.(sites := locked, txs := db.txs[i := t']))
  }

  /** What the lock loop over the Stable holders does, stated site by site. */
  lemma LockOutcome(sites: seq<Site>, t: Transaction, name: string, now: int)
    ensures var ps := SiteManager.Holders(sites, name, Stable);
      HolderPositions(sites, ps, name) &&
      var r := LockAll(sites, ps, t, name, now);
      && (r.0 <==> AllGrantWrite(sites, t, name))
      && |r.1| == |sites|
      && (forall k :: 0 <= k < |sites| ==>
           SameLayout(sites[k], r.1[k]) && r.1[k].data == sites[k].data && r.1[k].state == sites[k].state)
      && (SiteManager.AllValid(sites) ==> SiteManager.AllValid(r.1))
      && (forall k :: StableHolder(sites, k, name) ==>
           r.1[k].locks == Sites.GetWriteLock(sites[k], t, name).1.locks
           && (GrantsWrite(sites, k, t, name) ==> sites[k].id in r.2.visits))
      && r.2 == t.(visits := r.2.visits) && VisitsGrow(t.visits, r.2.visits)
  {
    var ps := SiteManager.Holders(sites, name, Stable);
    StableHolderPositions(sites, name);
    var (all, locked, t') := LockAll(sites, ps, t, name, now);
    LockAllGranted(sites, ps, t, name, now);
    LockAllSites(sites, ps, t, name, now);
    LockAllVisitTimes(sites, ps, t, name, now);
    LockAllVisitKeys(sites, ps, t, name, now);
    LockedKeepsLayout(sites, locked, ps, t, name);
    assert all <==> AllGrantWrite(sites, t, name) by {
      assert forall k :: StableHolder(sites, k, name) ==> exists a :: 0 <= a < |ps| && ps[a] == k;
    }
    forall k | StableHolder(sites, k, name)
      ensures locked[k].locks == Sites.GetWriteLock(sites[k], t, name).1.locks
      ensures GrantsWrite(sites, k, t, name) ==> sites[k].id in t'.visits
    {
      assert k in ps;
      var a :| 0 <= a < |ps| && ps[a] == k;
      if GrantsWrite(sites, k, t, name) {
        assert sites[k].id in GrantedIds(sites, ps, t, name);
      }
    }
  }

  /** A write whose locks were all granted: the value is stored at every Stable holder and the buffer cleared. */
  function LandWrite(db: Db, i: nat, op: BufferedOp): (r: Db)
    requires i < |db.txs| && Pending(db.txs[i]) && op.kind == Operations.Write && op.writeValue.Some?
    requires LockPhase(db, i, op.variable).0
    ensures Evolves(db, r)
    ensures BuffersHaveValues(db.txs) ==> BuffersHaveValues(r.txs)
    ensures r.txs[i].state == Running && r.txs[i].buffer == None
  {
    var name := op.variable;
    var ps := SiteManager.Holders(db.sites, name, Stable);
    var d := LockPhase(db, i, name).1;
    var w := WriteAll(d.sites, ps, name, op.writeValue.value);
    WriteAllLanded(db.sites, d.sites, ps, name, op.writeValue.value);
    UpdateEvolves(d, i, ClearBuffer(d.txs[i]), w, d.events);
    EvolvesTransitive(db, d, d.(sites := w, txs := d.txs[i := ClearBuffer(d.txs[i])]));
    d.(sites := w, txs := d.txs[i := ClearBuffer(d.txs[i])])
  }

  /**
   * A landed write stores the value at every Stable holder, which keeps the
   * lock it granted, and records a visit at each granting site.
   */
  lemma LandWriteSites(db: Db, i: nat, op: BufferedOp)
    requires i < |db.txs| && Pending(db.txs[i]) && op.kind == Operations.Write && op.writeValue.Some?
    requires LockPhase(db, i, op.variable).0
    ensures var r := LandWrite(db, i, op);
      && (forall k :: StableHolder(db.sites, k, op.variable) ==>
            r.sites[k].data[VariableIndex(db.sites[k], op.variable)].updatedValue == op.writeValue.value)
      && (forall k :: StableHolder(db.sites, k, op.variable) ==>
            r.sites[k].locks == Sites.GetWriteLock(db.sites[k], db.txs[i], op.variable).1.locks
            && (GrantsWrite(db.sites, k, db.txs[i], op.variable) ==> db.sites[k].id in r.txs[i].visits))
  {
    var name := op.variable;
    var ps := SiteManager.Holders(db.sites, name, Stable);
    var d := LockPhase(db, i, name).1;
    WriteAllLanded(db.sites, d.sites, ps, name, op.writeValue.value);
  }

  /** A write some site refused: the granted locks and visits stay, no value is stored, the write is buffered as Blocked. */
  function RefuseWrite(db: Db, i: nat, op: BufferedOp): (r: Db)
    requires i < |db.txs| && Pending(db.txs[i]) && op.kind == Operations.Write && op.writeValue.Some?
    ensures Evolves(db, r)
    ensures BuffersHaveValues(db.txs) ==> BuffersHaveValues(r.txs)
    ensures forall k :: 0 <= k < |db.sites| ==> r.sites[k].data == db.sites[k].data
    ensures r.txs[i] == BufferOperation(db.txs[i].(visits := r.txs[i].visits), op, Blocked, db.time)
    ensures forall k :: StableHolder(db.sites, k, op.variable) ==>
      r.sites[k].locks == Sites.GetWriteLock(db.sites[k], db.txs[i], op.variable).1.locks
      && (GrantsWrite(db.sites, k, db.txs[i], op.variable) ==> db.sites[k].id in r.txs[i].visits)
  {
    var d := LockPhase(db, i, op.variable).1;
    var u := BufferOperation(d.txs[i], op, Blocked, db.time);
    UpdateEvolves(d, i, u, d.sites, d.events);
    EvolvesTransitive(db, d, SetTx(d, i, u));
    SetTx(d, i, u)
  }

  /**
   * `WriteVariable` for transaction `i`. A write without a value fails
   * (the cast of a null value). With no Stable holder the write is buffered
   * as Waiting. Otherwise every Stable holder is asked for a write lock and
   * each granting site is visited; the value is stored at every Stable holder
   * only if all of them granted, and the write is buffered as Blocked, the
   * granted locks kept, if any refused.
   */
  function WriteVariable(db: Db, i: nat, op: BufferedOp): (r: Result<Db, Error>)
    requires i < |db.txs| && Pending(db.txs[i]) && op.kind == Operations.Write
    ensures r.Err? <==> op.writeValue.None?
    ensures r.Err? ==> r.error == MissingWriteValue
    ensures r.Ok? ==> Evolves(db, r.value)
    ensures r.Ok? && BuffersHaveValues(db.txs) ==> BuffersHaveValues(r.value.txs)
  {
    if op.writeValue.None? then Err(MissingWriteValue)
    else
      var name := op.variable;
      var ps := SiteManager.Holders(db.sites, name, Stable);
      if ps == [] then
        var u := BufferOperation(db.txs[i], op, Waiting, db.time);
        UpdateEvolves(db, i, u, db.sites, db.events);
        Ok(SetTx(db, i, u))
      else if LockPhase(db, i, name).0 then Ok(LandWrite(db, i, op))
      else Ok(RefuseWrite(db, i, op))
  }

  /** A write with a value waits when no Stable site holds the variable. */
  lemma WriteWaitsWithoutHolder(db: Db, i: nat, op: BufferedOp)
    requires i < |db.txs| && Pending(db.txs[i]) && op.kind == Operations.Write && op.writeValue.Some?
    requires forall k :: !StableHolder(db.sites, k, op.variable)
    ensures WriteVariable(db, i, op) == Ok(SetTx(db, i, BufferOperation(db.txs[i], op, Waiting, db.time)))
  {
    StableHolderPositions(db.sites, op.variable);
  }

  /** A write with a value lands when some Stable site holds the variable and every one grants the lock. */
  lemma WriteLandsWhenAllGrant(db: Db, i: nat, op: BufferedOp)
    requires i < |db.txs| && Pending(db.txs[i]) && op.kind == Operations.Write && op.writeValue.Some?
    requires (exists k :: StableHolder(db.sites, k, op.variable)) && AllGrantWrite(db.sites, db.txs[i], op.variable)
    ensures WriteVariable(db, i, op) == Ok(LandWrite(db, i, op))
  {
    SomeStableHolder(db.sites, op.variable);
    GrantedLockPhase(db, i, op.variable);
    WriteLands(db, i, op);
  }

  lemma WriteLands(db: Db, i: nat, op: BufferedOp)
    requires i < |db.txs| && Pending(db.txs[i]) && op.kind == Operations.Write && op.writeValue.Some?
    requires SiteManager.Holders(db.sites, op.variable, Stable) != [] && LockPhase(db, i, op.variable).0
    ensures WriteVariable(db, i, op) == Ok(LandWrite(db, i, op))
  {
  }

  lemma SomeStableHolder(sites: seq<Site>, name: string)
    requires exists k :: StableHolder(sites, k, name)
    ensures SiteManager.Holders(sites, name, Stable) != []
  {
    StableHolderPositions(sites, name);
    var k :| StableHolder(sites, k, name);
    assert k in SiteManager.Holders(sites, name, Stable);
  }

  lemma GrantedLockPhase(db: Db, i: nat, name: string)
    requires i < |db.txs| && Pending(db.txs[i]) && AllGrantWrite(db.sites, db.txs[i], name)
    ensures LockPhase(db, i, name).0
  {
  }

  /** A write with a value is refused, and the transaction blocked, when a Stable holder denies the lock. */
  lemma WriteRefusedWhenOneDenies(db: Db, i: nat, op: BufferedOp)
    requires i < |db.txs| && Pending(db.txs[i]) && op.kind == Operations.Write && op.writeValue.Some?
    requires !AllGrantWrite(db.sites, db.txs[i], op.variable)
    ensures WriteVariable(db, i, op) == Ok(RefuseWrite(db, i, op))
  {
    StableHolderPositions(db.sites, op.variable);
  }

  /** Storing into the locked sites reaches every Stable holder and keeps the layout and the lock tables. */
  lemma WriteAllLanded(sites: seq<Site>, locked: seq<Site>, ps: seq<nat>, name: string, value: int)
    requires ps == SiteManager.Holders(sites, name, Stable) && |locked| == |sites|
    requires forall k :: 0 <= k < |sites| ==> locked[k].data == sites[k].data && locked[k].state == sites[k].state && locked[k].id == sites[k].id
    ensures HolderPositions(locked, ps, name)
    ensures var w := WriteAll(locked, ps, name, value);
      && (forall k :: 0 <= k < |sites| ==> SameLayout(sites[k], w[k]) && w[k].locks == locked[k].locks && w[k].state == sites[k].state)
      && (forall k :: StableHolder(sites, k, name) ==> w[k].data[VariableIndex(sites[k], name)].updatedValue == value)
  {
    StableHolderPositions(sites, name);
    LockedHolders(sites, locked, ps, name);
    forall k | StableHolder(sites, k, name)
      ensures WriteAll(locked, ps, name, value)[k].data[VariableIndex(sites[k], name)].updatedValue == value
    {
      StoredAt(locked, ps, name, value, k);
    }
  }

  /** The holder positions of the directory are holder positions of the locked sites, which keep the same copies. */
  lemma LockedHolders(sites: seq<Site>, locked: seq<Site>, ps: seq<nat>, name: string)
    requires HolderPositions(sites, ps, name) && |locked| == |sites|
    requires forall k :: 0 <= k < |sites| ==> locked[k].data == sites[k].data
    ensures HolderPositions(locked, ps, name)
  {
    forall a | 0 <= a < |ps| ensures HoldsVariable(locked[ps[a]], name) {
      assert locked[ps[a]].data == sites[ps[a]].data;
    }
  }

  /** Each listed position takes the value in its copy of `name`. */
  lemma StoredAt(sites: seq<Site>, ps: seq<nat>, name: string, value: int, k: nat)
    requires HolderPositions(sites, ps, name) && k in ps
    ensures k < |sites| && HoldsVariable(sites[k], name)
    ensures WriteAll(sites, ps, name, value)[k].data[VariableIndex(sites[k], name)].updatedValue == value
  {
    var a :| 0 <= a < |ps| && ps[a] == k;
    assert WriteAll(sites, ps, name, value)[k] == WriteData(sites[k], name, value);
  }

  /** The lock loop leaves every site's copies and state as they were and keeps the lock tables valid. */
  lemma LockedKeepsLayout(sites: seq<Site>, locked: seq<Site>, ps: seq<nat>, t: Transaction, name: string)
    requires HolderPositions(sites, ps, name) && |locked| == |sites|
    requires forall k :: 0 <= k < |sites| ==>
      locked[k] == if k in ps then Sites.GetWriteLock(sites[k], t, name).1 else sites[k]
    ensures forall k :: 0 <= k < |sites| ==>
      SameLayout(sites[k], locked[k]) && locked[k].data == sites[k].data && locked[k].state == sites[k].state
    ensures HolderPositions(locked, ps, name)
    ensures SiteManager.AllValid(sites) ==> SiteManager.AllValid(locked)
  {
    assert forall a :: 0 <= a < |ps| ==> ps[a] in ps;
  }

  // ---------------------------------------------------------------------
  // The order of reruns

  /**
   * Transaction `a` is rerun before transaction `b`: it started waiting
   * earlier, or at the same time and was begun earlier (`OrderBy` is a
   * stable sort over the table's insertion order).
   */
  predicate Before(txs: seq<Transaction>, a: nat, b: nat)
    requires a < |txs| && b < |txs|
  {
    txs[a].waitTime < txs[b].waitTime || (txs[a].waitTime == txs[b].waitTime && a < b)
  }

  /** Positions into the table, in rerun order. */
  predicate InWaitOrder(txs: seq<Transaction>, s: seq<nat>) {
    && (forall a :: 0 <= a < |s| ==> s[a] < |txs|)
    && (forall a, b :: 0 <= a < b < |s| ==> Before(txs, s[a], s[b]))
  }

  /** Inserts position `x`, later in the table than every position of `s`, after all that do not wait longer. */
  function InsertByWait(txs: seq<Transaction>, s: seq<nat>, x: nat): (r: seq<nat>)
    requires x < |txs| && InWaitOrder(txs, s) && forall a :: 0 <= a < |s| ==> s[a] < x
    ensures InWaitOrder(txs, r)
    ensures forall y :: y in r <==> y in s || y == x
    ensures forall a :: 0 <= a < |r| ==> r[a] <= x
  {
    if s == [] then [x]
    else
      var last := s[|s| - 1];
      if txs[last].waitTime <= txs[x].waitTime then
        AppendAfterLast(txs, s, x);
        s + [x]
      else
        var front := s[..|s| - 1];
        FrontOfWaitOrder(txs, s);
        var m := InsertByWait(txs, front, x);
        AllBeforeLast(txs, s, m, x);
        m + [last]
  }

  /** Appending keeps the rerun order when the new position follows the last one. */
  lemma AppendInWaitOrder(txs: seq<Transaction>, s: seq<nat>, x: nat)
    requires x < |txs| && InWaitOrder(txs, s) && forall a :: 0 <= a < |s| ==> Before(txs, s[a], x)
    ensures InWaitOrder(txs, s + [x])
  {
    var r := s + [x];
    forall a, b | 0 <= a < b < |r| ensures Before(txs, r[a], r[b]) {
      assert r[a] == s[a];
    }
  }

  /** A later position waiting no shorter than the last one goes at the end. */
  lemma AppendAfterLast(txs: seq<Transaction>, s: seq<nat>, x: nat)
    requires x < |txs| && InWaitOrder(txs, s) && s != [] && forall a :: 0 <= a < |s| ==> s[a] < x
    requires txs[s[|s| - 1]].waitTime <= txs[x].waitTime
    ensures InWaitOrder(txs, s + [x])
  {
    forall a | 0 <= a < |s| ensures Before(txs, s[a], x) {
      if a < |s| - 1 { assert Before(txs, s[a], s[|s| - 1]); }
    }
    AppendInWaitOrder(txs, s, x);
  }

  /** Dropping the last position keeps the order, and the members are the front's plus the last. */
  lemma FrontOfWaitOrder(txs: seq<Transaction>, s: seq<nat>)
    requires InWaitOrder(txs, s) && s != []
    ensures InWaitOrder(txs, s[..|s| - 1])
    ensures forall y :: y in s <==> y in s[..|s| - 1] || y == s[|s| - 1]
    ensures forall a :: 0 <= a < |s| - 1 ==> Before(txs, s[a], s[|s| - 1])
  {
    assert s == s[..|s| - 1] + [s[|s| - 1]];
  }

  /** Inserting into the front keeps everything before a last position that waits longer than `x`. */
  lemma AllBeforeLast(txs: seq<Transaction>, s: seq<nat>, m: seq<nat>, x: nat)
    requires x < |txs| && InWaitOrder(txs, s) && s != [] && InWaitOrder(txs, m)
    requires forall a :: 0 <= a < |s| ==> s[a] < x
    requires txs[s[|s| - 1]].waitTime > txs[x].waitTime
    requires forall y :: y in m <==> y in s[..|s| - 1] || y == x
    ensures InWaitOrder(txs, m + [s[|s| - 1]])
  {
    var last := s[|s| - 1];
    forall a | 0 <= a < |m| ensures Before(txs, m[a], last) {
      var y := m[a];
      assert y in m;
      if y != x {
        var b :| 0 <= b < |s[..|s| - 1]| && s[..|s| - 1][b] == y;
        assert Before(txs, s[b], last);
      }
    }
    AppendInWaitOrder(txs, m, last);
  }

  /** The waiting transactions among the first `n` of the table, in rerun order. */
  function WaitOrderUpTo(txs: seq<Transaction>, n: nat): (r: seq<nat>)
    requires n <= |txs|
    ensures InWaitOrder(txs, r)
    ensures forall i :: i in r <==> 0 <= i < n && IsWaiting(txs[i])
    ensures forall a :: 0 <= a < |r| ==> r[a] < n
  {
    if n == 0 then []
    else
      var s := WaitOrderUpTo(txs, n - 1);
      if IsWaiting(txs[n - 1]) then InsertByWait(txs, s, n - 1) else s
  }

  /**
   * The transactions `RerunTransactions` goes through: the waiting or
   * blocked ones, each once, by the time they started waiting and then by
   * the order they were begun.
   */
  function WaitOrder(txs: seq<Transaction>): (r: seq<nat>)
    ensures InWaitOrder(txs, r)
    ensures forall i :: i in r <==> 0 <= i < |txs| && IsWaiting(txs[i])
  {
    WaitOrderUpTo(txs, |txs|)
  }

  /** The head of a rerun order comes before every other member. */
  lemma HeadComesFirst(txs: seq<Transaction>, s: seq<nat>, y: nat)
    requires InWaitOrder(txs, s)
    ensures s != [] ==> s[0] in s
    ensures y in s ==> y == s[0] || (y < |txs| && Before(txs, s[0], y))
  {
    if y in s {
      var a :| 0 <= a < |s| && s[a] == y;
    }
  }

  /** A rerun order is determined by its members: two orderings of the same positions coincide. */
  lemma {:induction false} WaitOrderUnique(txs: seq<Transaction>, s: seq<nat>, t: seq<nat>)
    requires InWaitOrder(txs, s) && InWaitOrder(txs, t)
    requires forall y :: y in s <==> y in t
    ensures s == t
    decreases |s|
  {
    if s != [] {
      assert t != [] by { assert s[0] in t; }
      HeadComesFirst(txs, s, t[0]);
      HeadComesFirst(txs, t, s[0]);
      assert forall y :: y in s[1..] <==> y in t[1..] by {
        forall y ensures y in s[1..] <==> y in t[1..] {
          if y in s[1..] {
            var a :| 1 <= a < |s| && s[a] == y;
            assert Before(txs, s[0], y);
          }
          if y in t[1..] {
            var b :| 1 <= b < |t| && t[b] == y;
            assert Before(txs, t[0], y);
          }
          assert y in s <==> y in s[..1] + s[1..] by { assert s == s[..1] + s[1..]; }
          assert y in t <==> y in t[..1] + t[1..] by { assert t == t[..1] + t[1..]; }
        }
      }
      WaitOrderUnique(txs, s[1..], t[1..]);
    } else {
      HeadComesFirst(txs, t, if t == [] then 0 else t[0]);
    }
  }

  // ---------------------------------------------------------------------
  // End, commit and abort

  /** A site `t` visited is not up now. */
  predicate HasDownSite(sites: seq<Site>, t: Transaction) {
    exists k :: 0 <= k < |sites| && sites[k].id in t.visits && sites[k].state != Stable
  }

  /**
   * `CanCommit`: a read-only transaction always commits; any other only if
   * every site it visited is up and has been up since its first visit there.
   */
  predicate CanCommit(sites: seq<Site>, t: Transaction) {
    t.isReadOnly ||
    forall k :: 0 <= k < |sites| && sites[k].id in t.visits ==>
      sites[k].state == Stable && sites[k].upSince <= t.visits[sites[k].id]
  }

  /**
   * A read-only transaction can always commit; a read-write one cannot once
   * a site it visited is down, nor once a visited site has come back up
   * after the first visit there.
   */
  lemma CanCommitNeedsSitesUp(sites: seq<Site>, t: Transaction, k: nat)
    requires k < |sites| && sites[k].id in t.visits
    ensures t.isReadOnly ==> CanCommit(sites, t)
    ensures !t.isReadOnly && HasDownSite(sites, t) ==> !CanCommit(sites, t)
    ensures !t.isReadOnly && sites[k].upSince > t.visits[sites[k].id] ==> !CanCommit(sites, t)
  {
  }

  /**
   * Commits transaction `i`: at every site it visited that is up, the values
   * it wrote are committed and its locks released; a notice is written.
   */
  function Commit(db: Db, i: nat): (r: Db)
    requires i < |db.txs|
    ensures Evolves(db, r)
    ensures BuffersHaveValues(db.txs) ==> BuffersHaveValues(r.txs)
    ensures r.txs == db.txs[i := db.txs[i].(state := Committed)]
    ensures r.sites == CommitWrites(db.sites, db.txs[i])
    ensures r.events == db.events + [CommitEvent(db.txs[i].name)]
  {
    var t := db.txs[i];
    UpdateEvolves(db, i, t.(state := Committed), CommitWrites(db.sites, t), db.events + [CommitEvent(t.name)]);
    db.(sites := CommitWrites(db.sites, t), txs := db.txs[i := t.(state := Committed)],
        events := db.events + [CommitEvent(t.name)])
  }

  /** Aborts transaction `i`: its locks are released at every site it visited that is up; a notice is written. */
  function Abort(db: Db, i: nat): (r: Db)
    requires i < |db.txs|
    ensures Evolves(db, r)
    ensures BuffersHaveValues(db.txs) ==> BuffersHaveValues(r.txs)
    ensures r.txs == db.txs[i := db.txs[i].(state := Aborted)]
    ensures r.sites == ReleaseLocks(db.sites, db.txs[i])
    ensures r.events == db.events + [AbortEvent(db.txs[i].name)]
  {
    var t := db.txs[i];
    UpdateEvolves(db, i, t.(state := Aborted), ReleaseLocks(db.sites, t), db.events + [AbortEvent(t.name)]);
    db.(sites := ReleaseLocks(db.sites, t), txs := db.txs[i := t.(state := Aborted)],
        events := db.events + [AbortEvent(t.name)])
  }

  /**
   * The finishing half of `EndTransaction`: the buffer is cleared, the end
   * time set, and the transaction committed if it can commit and aborted
   * otherwise.
   */
  function Finish(db: Db, i: nat): (r: Db)
    requires i < |db.txs| && Pending(db.txs[i])
    ensures Evolves(db, r)
    ensures BuffersHaveValues(db.txs) ==> BuffersHaveValues(r.txs)
    ensures CountPending(r.txs) < CountPending(db.txs)
    ensures var t := ClearBuffer(db.txs[i]).(endTime := db.time);
      && r.txs[i].buffer == None && r.txs[i].endTime == db.time
      && (CanCommit(db.sites, t) ==>
            r.txs[i].state == Committed && r.sites == CommitWrites(db.sites, t) && r.events == db.events + [CommitEvent(t.name)])
      && (!CanCommit(db.sites, t) ==>
            r.txs[i].state == Aborted && r.sites == ReleaseLocks(db.sites, t) && r.events == db.events + [AbortEvent(t.name)])
      && forall k :: 0 <= k < |db.txs| && k != i ==> r.txs[k] == db.txs[k]
  {
    var t := ClearBuffer(db.txs[i]).(endTime := db.time);
    UpdateEvolves(db, i, t, db.sites, db.events);
    var d := SetTx(db, i, t);
    var e := if CanCommit(d.sites, t) then Commit(d, i) else Abort(d, i);
    EvolvesTransitive(db, d, e);
    CountPendingDrops(db.txs, e.txs, i);
    e
  }

  // ---------------------------------------------------------------------
  // End and the reruns

  /**
   * `EndTransaction` for transaction `i`: a read-only transaction that
   * visited a site which is down now has its end buffered as Waiting;
   * otherwise it is finished and every waiting transaction rerun.
   */
  function EndTransaction(db: Db, i: nat, op: BufferedOp, mode: RerunMode): (r: Result<Db, Error>)
    requires i < |db.txs| && Pending(db.txs[i]) && op.kind == Operations.End
    ensures r.Ok? ==> Evolves(db, r.value)
    ensures BuffersHaveValues(db.txs) ==> (r.Ok? ==> BuffersHaveValues(r.value.txs)) && (mode == SkipCleared ==> r.Ok?)
    ensures r.Err? ==> r.error == MissingWriteValue || (mode == AsWritten && r.error.EmptyBuffer?)
    ensures db.txs[i].isReadOnly && HasDownSite(db.sites, db.txs[i]) ==>
      r == Ok(SetTx(db, i, BufferOperation(db.txs[i], op, Waiting, db.time)))
    ensures !(db.txs[i].isReadOnly && HasDownSite(db.sites, db.txs[i])) ==> r == Rerun(Finish(db, i), mode)
    decreases CountPending(db.txs), 0
  {
    var t := db.txs[i];
    if t.isReadOnly && HasDownSite(db.sites, t) then
      var u := BufferOperation(t, op, Waiting, db.time);
      UpdateEvolves(db, i, u, db.sites, db.events);
      Ok(SetTx(db, i, u))
    else
      var e := Finish(db, i);
      var r := Rerun(e, mode);
      assert r.Ok? ==> Evolves(db, r.value) by {
        if r.Ok? { EvolvesTransitive(db, e, r.value); }
      }
      r
  }

  /**
   * Reruns the buffered operation of transaction `i` (`RunOperation` with the
   * transaction given). An empty buffer fails as written; the corrected
   * rerun passes over it.
   */
  function RunBuffered(db: Db, i: nat, mode: RerunMode): (r: Result<Db, Error>)
    requires i < |db.txs|
    ensures r.Ok? ==> Evolves(db, r.value)
    ensures BuffersHaveValues(db.txs) ==> (r.Ok? ==> BuffersHaveValues(r.value.txs)) && (mode == SkipCleared ==> r.Ok?)
    ensures r.Err? ==> r.error == MissingWriteValue || (mode == AsWritten && r.error.EmptyBuffer?)
    ensures db.txs[i].buffer.None? ==> r == if mode == AsWritten then Err(EmptyBuffer(db.txs[i].name)) else Ok(db)
    decreases CountPending(db.txs), 2
  {
    match db.txs[i].buffer
    case None =>
      EvolvesReflexive(db);
      if mode == AsWritten then Err(EmptyBuffer(db.txs[i].name)) else Ok(db)
    case Some(op) => Dispatch(db, i, op, mode)
  }

  /** Runs a read, a write or an end for transaction `i`. */
  function Dispatch(db: Db, i: nat, op: BufferedOp, mode: RerunMode): (r: Result<Db, Error>)
    requires i < |db.txs| && Pending(db.txs[i])
    ensures r.Ok? ==> Evolves(db, r.value)
    ensures r.Ok? && BuffersHaveValues(db.txs) ==> BuffersHaveValues(r.value.txs)
    ensures BuffersHaveValues(db.txs) && mode == SkipCleared && (op.kind == Operations.Write ==> op.writeValue.Some?) ==> r.Ok?
    ensures r.Err? ==> r.error == MissingWriteValue || (mode == AsWritten && r.error.EmptyBuffer?)
    decreases CountPending(db.txs), 1
  {
    if op.kind == Operations.Read then Ok(ReadVariable(db, i, op))
    else if op.kind == Operations.Write then WriteVariable(db, i, op)
    else EndTransaction(db, i, op, mode)
  }

  /** Reruns the transactions at `idxs` in turn, stopping at the first failure. */
  function RerunList(db: Db, idxs: seq<nat>, mode: RerunMode): (r: Result<Db, Error>)
    requires forall a :: 0 <= a < |idxs| ==> idxs[a] < |db.txs|
    ensures r.Ok? ==> Evolves(db, r.value)
    ensures BuffersHaveValues(db.txs) ==> (r.Ok? ==> BuffersHaveValues(r.value.txs)) && (mode == SkipCleared ==> r.Ok?)
    ensures r.Err? ==> r.error == MissingWriteValue || (mode == AsWritten && r.error.EmptyBuffer?)
    decreases CountPending(db.txs), 3, |idxs|
  {
    if idxs == [] then
      EvolvesReflexive(db);
      Ok(db)
    else
      var r := RunBuffered(db, idxs[0], mode);
      if r.Err? then r
      else
        EvolvesCount(db, r.value);
        var r2 := RerunList(r.value, idxs[1..], mode);
        assert r2.Ok? ==> Evolves(db, r2.value) by {
          if r2.Ok? { EvolvesTransitive(db, r.value, r2.value); }
        }
        r2
  }

  /**
   * `RerunTransactions`: the waiting and blocked transactions, as they are
   * when the pass starts, each rerun in turn in rerun order.
   */
  function Rerun(db: Db, mode: RerunMode): (r: Result<Db, Error>)
    ensures r.Ok? ==> Evolves(db, r.value)
    ensures BuffersHaveValues(db.txs) ==> (r.Ok? ==> BuffersHaveValues(r.value.txs)) && (mode == SkipCleared ==> r.Ok?)
    ensures r.Err? ==> r.error == MissingWriteValue || (mode == AsWritten && r.error.EmptyBuffer?)
    decreases CountPending(db.txs), 4
  {
    RerunList(db, WaitOrder(db.txs), mode)
  }

  // ---------------------------------------------------------------------
  // Looking up, beginning and running

  /** The two names are equal once lower-cased. */
  predicate SameName(a: string, b: string) {
    ToLower(a) == ToLower(b)
  }

  /** The first transaction, in table order, whose name matches `name` ignoring case (`FirstOrDefault`). */
  function FindLower(txs: seq<Transaction>, name: string): (r: Option<nat>)
    ensures r.Some? ==> r.value < |txs| && SameName(txs[r.value].name, name)
    ensures r.Some? ==> forall j :: 0 <= j < r.value ==> !SameName(txs[j].name, name)
    ensures r.None? <==> forall j :: 0 <= j < |txs| ==> !SameName(txs[j].name, name)
  {
    if txs == [] then None
    else if SameName(txs[0].name, name) then Some(0)
    else match FindLower(txs[1..], name)
      case None => None
      case Some(k) => Some(k + 1)
  }

  /**
   * `GetTransaction`: finds the transaction an operation names, ignoring
   * case. If it is waiting or blocked, deadlocks are detected and the
   * waiting transactions rerun first; it must then be Running.
   */
  function GetTransaction(db: Db, name: string, mode: RerunMode): (r: Result<(Db, nat), Error>)
    ensures r.Err? && r.error.UnknownTransaction? <==> FindLower(db.txs, name).None?
    ensures r.Ok? ==> var (d, i) := r.value;
      && Evolves(db, d) && FindLower(db.txs, name) == Some(i) && i < |d.txs| && d.txs[i].state == Running
    ensures r.Ok? && !IsWaiting(db.txs[r.value.1]) ==> r.value.0 == db
    ensures BuffersHaveValues(db.txs) ==> (r.Ok? ==> BuffersHaveValues(r.value.0.txs))
    ensures r.Err? && !r.error.UnknownTransaction? ==>
      r.error == NotRunning(name) || r.error == MissingWriteValue || (mode == AsWritten && r.error.EmptyBuffer?)
    ensures r.Err? && BuffersHaveValues(db.txs) && mode == SkipCleared ==>
      r.error == UnknownTransaction(name) || r.error == NotRunning(name)
  {
    match FindLower(db.txs, name)
    case None => Err(UnknownTransaction(name))
    case Some(i) =>
      var checked := Settle(db, i, mode);
      if checked.Err? then Err(checked.error)
      else if checked.value.txs[i].state != Running then Err(NotRunning(name))
      else Ok((checked.value, i))
  }

  /** When transaction `i` is waiting or blocked: deadlock detection, then the reruns. */
  function Settle(db: Db, i: nat, mode: RerunMode): (r: Result<Db, Error>)
    requires i < |db.txs|
    ensures r.Ok? ==> Evolves(db, r.value)
    ensures !IsWaiting(db.txs[i]) ==> r == Ok(db)
    ensures IsWaiting(db.txs[i]) ==> r == Rerun(DeadlockManager.DetectDeadlocks(db), mode)
    ensures BuffersHaveValues(db.txs) ==> (r.Ok? ==> BuffersHaveValues(r.value.txs)) && (mode == SkipCleared ==> r.Ok?)
    ensures r.Err? ==> r.error == MissingWriteValue || (mode == AsWritten && r.error.EmptyBuffer?)
  {
    if IsWaiting(db.txs[i]) then
      var d := DeadlockManager.DetectDeadlocks(db);
      var r := Rerun(d, mode);
      assert r.Ok? ==> Evolves(db, r.value) by {
        if r.Ok? { EvolvesTransitive(db, d, r.value); }
      }
      r
    else
      EvolvesReflexive(db);
      Ok(db)
  }

  /**
   * `BeginTransaction`: a name already in the table, compared exactly, is
   * refused; otherwise a new Running transaction starting now is appended.
   */
  function BeginTransaction(db: Db, op: Operations.Operation): (r: Result<Db, Error>)
    requires op.kind == Operations.Begin || op.kind == Operations.BeginRO
    ensures r.Err? <==> IndexOf(db.txs, op.transaction).Some?
    ensures r.Err? ==> r.error == TransactionExists(op.transaction)
    ensures r.Ok? ==> (Grows(db, r.value) && |r.value.txs| == |db.txs| + 1
      && r.value.txs[..|db.txs|] == db.txs && r.value.sites == db.sites && r.value.events == db.events)
    ensures r.Ok? ==> var t := r.value.txs[|db.txs|];
      t.name == op.transaction && t.isReadOnly == (op.kind == Operations.BeginRO)
      && t.startTime == db.time && t.state == Running && t.buffer == None && t.visits == map[]
    ensures r.Ok? && UniqueNames(db.txs) ==> UniqueNames(r.value.txs)
    ensures r.Ok? && BuffersHaveValues(db.txs) ==> BuffersHaveValues(r.value.txs)
  {
    if IndexOf(db.txs, op.transaction).Some? then Err(TransactionExists(op.transaction))
    else
      var r := db.(txs := db.txs + [Transactions.New(op.transaction, op.kind == Operations.BeginRO, db.time)]);
      assert r.txs[..|db.txs|] == db.txs;
      Ok(r)
  }

  /**
   * `RunOperation` for a new operation: begins go to `BeginTransaction`;
   * reads, writes and ends look their transaction up and go to their
   * handler; any other kind is unsupported here.
   */
  function RunOperation(db: Db, op: Operations.Operation, mode: RerunMode): (r: Result<Db, Error>)
    ensures r.Ok? ==> Grows(db, r.value)
    ensures r.Ok? && UniqueNames(db.txs) ==> UniqueNames(r.value.txs)
    ensures r.Ok? && BuffersHaveValues(db.txs) ==> BuffersHaveValues(r.value.txs)
    ensures Operations.IsSiteOperation(op.kind) ==> r == Err(UnsupportedOperation)
    ensures r.Err? && BuffersHaveValues(db.txs) && mode == SkipCleared ==> !r.error.EmptyBuffer?
  {
    match op.kind
    case Begin => BeginTransaction(db, op)
    case BeginRO => BeginTransaction(db, op)
    case Read => RunOnTransaction(db, op, mode)
    case Write => RunOnTransaction(db, op, mode)
    case End => RunOnTransaction(db, op, mode)
    case _ => Err(UnsupportedOperation)
  }

  /** A read, write or end: the transaction is looked up first, then the operation handled. */
  function RunOnTransaction(db: Db, op: BufferedOp, mode: RerunMode): (r: Result<Db, Error>)
    ensures r.Ok? ==> Grows(db, r.value)
    ensures r.Ok? && UniqueNames(db.txs) ==> UniqueNames(r.value.txs)
    ensures r.Ok? && BuffersHaveValues(db.txs) ==> BuffersHaveValues(r.value.txs)
    ensures r.Err? && BuffersHaveValues(db.txs) && mode == SkipCleared ==> !r.error.EmptyBuffer?
    ensures FindLower(db.txs, op.transaction).None? ==> r == Err(UnknownTransaction(op.transaction))
  {
    match GetTransaction(db, op.transaction, mode)
    case Err(e) => Err(e)
    case Ok((d, i)) =>
      var r := Dispatch(d, i, op, mode);
      assert r.Ok? ==> Grows(db, r.value) && (UniqueNames(db.txs) ==> UniqueNames(r.value.txs)) by {
        if r.Ok? {
          EvolvesTransitive(db, d, r.value);
          EvolvesGrows(db, r.value);
          if UniqueNames(db.txs) { EvolvesKeepsUnique(db, r.value); }
        }
      }
      r
  }

  /**
   * `Execute`: the waiting transactions are rerun, then the tick's
   * operations run in order; the first failure ends the run.
   */
  function Execute(db: Db, ops: seq<Operations.Operation>, mode: RerunMode): (r: Result<Db, Error>)
    ensures r.Ok? ==> Grows(db, r.value)
    ensures r.Ok? && UniqueNames(db.txs) ==> UniqueNames(r.value.txs)
    ensures r.Ok? && BuffersHaveValues(db.txs) ==> BuffersHaveValues(r.value.txs)
    ensures r.Err? && BuffersHaveValues(db.txs) && mode == SkipCleared ==> !r.error.EmptyBuffer?
  {
    match Rerun(db, mode)
    case Err(e) => Err(e)
    case Ok(d) =>
      EvolvesGrows(db, d);
      var r := RunAll(d, ops, mode);
      assert r.Ok? ==> Grows(db, r.value) by {
        if r.Ok? { GrowsTransitive(db, d, r.value); }
      }
      r
  }

  /** Runs the operations in order, stopping at the first failure. */
  function RunAll(db: Db, ops: seq<Operations.Operation>, mode: RerunMode): (r: Result<Db, Error>)
    ensures r.Ok? ==> Grows(db, r.value)
    ensures r.Ok? && UniqueNames(db.txs) ==> UniqueNames(r.value.txs)
    ensures r.Ok? && BuffersHaveValues(db.txs) ==> BuffersHaveValues(r.value.txs)
    ensures r.Err? && BuffersHaveValues(db.txs) && mode == SkipCleared ==> !r.error.EmptyBuffer?
    decreases |ops|
  {
    if ops == [] then
      EvolvesReflexive(db);
      EvolvesGrows(db, db);
      Ok(db)
    else
      match RunOperation(db, ops[0], mode)
      case Err(e) => Err(e)
      case Ok(d) =>
        var r := RunAll(d, ops[1..], mode);
        assert r.Ok? ==> Grows(db, r.value) by {
          if r.Ok? { GrowsTransitive(db, d, r.value); }
        }
        r
  }

  // ---------------------------------------------------------------------
  // Properties

  /** A read ends in exactly one of three ways: buffered as Waiting, buffered as Blocked, or served by the first granter. */
  lemma ReadCases(db: Db, i: nat, op: BufferedOp)
    requires i < |db.txs| && Pending(db.txs[i]) && op.kind == Operations.Read
    ensures var r := ReadVariable(db, i, op);
      || r == SetTx(db, i, BufferOperation(db.txs[i], op, Waiting, db.time))
      || r == SetTx(db, i, BufferOperation(db.txs[i], op, Blocked, db.time))
      || exists k :: FirstGranter(db.sites, db.txs[i], op.variable, k) && r == Serve(db, i, k, op.variable)
  {
    var ps := SiteManager.Holders(db.sites, op.variable, Stable);
    ReadVariableSpec(db, i, op);
    FirstGrantSpec(db.sites, db.txs[i], op.variable);
    StableHolderPositions(db.sites, op.variable);
    if ps != [] {
      assert StableHolder(db.sites, ps[0], op.variable) by { assert ps[0] in ps; }
    }
  }

  /** A read-only transaction never takes a lock: no lock table changes when it reads. */
  lemma ReadOnlyReadTakesNoLock(db: Db, i: nat, op: BufferedOp)
    requires i < |db.txs| && Pending(db.txs[i]) && op.kind == Operations.Read && db.txs[i].isReadOnly
    ensures var r := ReadVariable(db, i, op);
      |r.sites| == |db.sites| && forall k :: 0 <= k < |db.sites| ==> r.sites[k].locks == db.sites[k].locks
  {
    ReadCases(db, i, op);
  }

  /**
   * When every Stable holder grants the write lock, the lock phase succeeds
   * and after the landed write the writer holds a write lock on the variable
   * at every Stable holder.
   */
  lemma LandedWriteHoldsLocks(db: Db, i: nat, op: BufferedOp, k: int)
    requires i < |db.txs| && Pending(db.txs[i]) && op.kind == Operations.Write && op.writeValue.Some?
    requires AllGrantWrite(db.sites, db.txs[i], op.variable) && StableHolder(db.sites, k, op.variable)
    ensures LockPhase(db, i, op.variable).0
      && LockManager.HasWriteLock(LandWrite(db, i, op).sites[k].locks, db.txs[i].name, op.variable)
  {
    GrantedLockPhase(db, i, op.variable);
    LandWriteSites(db, i, op);
    assert GrantsWrite(db.sites, k, db.txs[i], op.variable);
  }

  /**
   * Committing publishes and releases: at every site the transaction
   * visited that is up, each copy it write-locked takes the written value
   * and becomes readable, and it holds no lock there afterwards.
   */
  lemma CommitPublishes(db: Db, i: nat, k: int, x: string)
    requires i < |db.txs| && VisitedStable(db.sites, db.txs[i], k)
    ensures var r := Commit(db, i).sites[k];
      && !LockManager.Holds(r.locks, db.txs[i].name, x)
      && forall j :: (0 <= j < |db.sites[k].data|
           && LockManager.Lock(LockManager.Write, db.txs[i].name, db.sites[k].data[j].name) in db.sites[k].locks) ==>
           r.data[j].value == db.sites[k].data[j].updatedValue && r.data[j].readable
  {
    ReleaseFreesVisitedSites(db.sites, db.txs[i], k, x);
  }

  /** Aborting changes no stored value anywhere and releases the transaction's locks where it visited a site that is up. */
  lemma AbortKeepsValues(db: Db, i: nat, x: string)
    requires i < |db.txs|
    ensures var r := Abort(db, i).sites;
      && (forall k :: 0 <= k < |db.sites| ==> r[k].data == db.sites[k].data)
      && (forall k :: VisitedStable(db.sites, db.txs[i], k) ==> !LockManager.Holds(r[k].locks, db.txs[i].name, x))
  {
    forall k | VisitedStable(db.sites, db.txs[i], k)
      ensures !LockManager.Holds(Abort(db, i).sites[k].locks, db.txs[i].name, x)
    {
      ReleaseFreesVisitedSites(db.sites, db.txs[i], k, x);
    }
  }

  /**
   * Available copies: a transaction that may write aborts at its end when a
   * site it visited is down, or has come back up since its first visit;
   * otherwise it commits.
   */
  lemma FinishCommitsIffSitesStayedUp(db: Db, i: nat)
    requires i < |db.txs| && Pending(db.txs[i]) && !db.txs[i].isReadOnly
    ensures var t := db.txs[i];
      Finish(db, i).txs[i].state == Committed <==>
        forall k :: 0 <= k < |db.sites| && db.sites[k].id in t.visits ==>
          db.sites[k].state == Stable && db.sites[k].upSince <= t.visits[db.sites[k].id]
    ensures Finish(db, i).txs[i].state == Committed || Finish(db, i).txs[i].state == Aborted
  {
    var t := db.txs[i].(buffer := None, endTime := db.time);
    assert CanCommit(db.sites, t) <==> CanCommit(db.sites, db.txs[i]);
  }

  /** A read-only transaction always commits once its end is no longer deferred. */
  lemma ReadOnlyAlwaysCommits(db: Db, i: nat)
    requires i < |db.txs| && Pending(db.txs[i]) && db.txs[i].isReadOnly
    ensures Finish(db, i).txs[i].state == Committed
  {
  }

  /** Lookup ignores case: two names equal once lower-cased find the same transaction. */
  lemma {:induction false} LookupIgnoresCase(txs: seq<Transaction>, a: string, b: string)
    requires SameName(a, b)
    ensures FindLower(txs, a) == FindLower(txs, b)
    decreases |txs|
  {
    if txs != [] {
      LookupIgnoresCase(txs[1..], a, b);
    }
  }

  /**
   * `BeginTransaction` compares names exactly and the lookup ignores case:
   * after `T1`, a `t1` may also begin, and every later operation for `t1`
   * goes to `T1`.
   */
  lemma CaseShadowedBegin(now: int)
    ensures var db := Db(now, [], [Transactions.New("T1", false, now)], []);
      var r := BeginTransaction(db, Operations.Operation(Operations.Begin, "t1", None, "", None));
      r.Ok? && |r.value.txs| == 2 && FindLower(r.value.txs, "t1") == Some(0)
  {
    var db := Db(now, [], [Transactions.New("T1", false, now)], []);
    assert db.txs[0].name != "t1";
    assert ToLower("T1") == "t1" by {
      assert LowerChar('T') == 't' && LowerChar('1') == '1';
    }
  }
}
