/**
 * The state the transaction and deadlock managers share: the clock time of
 * the current tick, the site directory, the transaction table in insertion
 * order, and the notices written so far.
 */
module Database {
  import opened Wrappers
  import opened Transactions
  import opened Sites
  import opened Outcomes
  import SiteManager
  import LockManager
  import Operations

  datatype Db = Db(time: int, sites: seq<Site>, txs: seq<Transaction>, events: seq<Event>)

  /** The state at start-up: time 0, the initial directory, no transactions. */
  function Start(): (db: Db)
    ensures db.time == 0 && db.txs == [] && db.events == []
    ensures SiteManager.DirectoryWF(db.sites) && SiteManager.AllValid(db.sites)
  {
    Db(0, SiteManager.Initial(), [], [])
  }

  /** Site position `k` is a site `t` has visited and which is up now. */
  predicate VisitedStable(sites: seq<Site>, t: Transaction, k: int) {
    0 <= k < |sites| && sites[k].id in t.visits && sites[k].state == Stable
  }

  /** Releases the locks of `t` at every site it visited that is up; the other sites are untouched. */
  function ReleaseLocks(sites: seq<Site>, t: Transaction): (r: seq<Site>)
    ensures |r| == |sites|
    ensures forall k :: 0 <= k < |sites| ==>
      r[k] == if VisitedStable(sites, t, k) then ClearLocks(sites[k], t.name) else sites[k]
    ensures forall k :: 0 <= k < |sites| ==> SameLayout(sites[k], r[k]) && r[k].state == sites[k].state
    ensures SiteManager.AllValid(sites) ==> SiteManager.AllValid(r)
  {
    seq(|sites|, k requires 0 <= k < |sites| =>
      if VisitedStable(sites, t, k) then ClearLocks(sites[k], t.name) else sites[k])
  }

  /**
   * At every site `t` visited that is up, applies the values `t` wrote and
   * releases its locks; the other sites are untouched.
   */
  function CommitWrites(sites: seq<Site>, t: Transaction): (r: seq<Site>)
    ensures |r| == |sites|
    ensures forall k :: 0 <= k < |sites| ==>
      r[k] == if VisitedStable(sites, t, k) then ClearLocks(CommitValue(sites[k], t.name), t.name) else sites[k]
    ensures forall k :: 0 <= k < |sites| ==> SameLayout(sites[k], r[k]) && r[k].state == sites[k].state
    ensures SiteManager.AllValid(sites) ==> SiteManager.AllValid(r)
  {
    seq(|sites|, k requires 0 <= k < |sites| =>
      if VisitedStable(sites, t, k) then ClearLocks(CommitValue(sites[k], t.name), t.name) else sites[k])
  }

  /** After either release, `t` holds no lock at any site it visited that is up. */
  lemma ReleaseFreesVisitedSites(sites: seq<Site>, t: Transaction, k: int, variable: string)
    requires VisitedStable(sites, t, k)
    ensures !LockManager.Holds(ReleaseLocks(sites, t)[k].locks, t.name, variable)
    ensures !LockManager.Holds(CommitWrites(sites, t)[k].locks, t.name, variable)
  {
    LockManager.ClearLocksReleasesAll(sites[k].locks, t.name, variable);
    LockManager.ClearLocksReleasesAll(CommitValue(sites[k], t.name).locks, t.name, variable);
  }

  /** Visits are only ever added: every recorded site keeps its first-visit time. */
  predicate VisitsGrow(before: map<int, int>, after: map<int, int>) {
    forall s :: s in before ==> s in after && after[s] == before[s]
  }

  /**
   * `u` is a later version of `t`: same identity and start, visits only
   * added, and no work left once `t` had none.
   */
  predicate Follows(t: Transaction, u: Transaction) {
    && u.name == t.name && u.isReadOnly == t.isReadOnly && u.startTime == t.startTime
    && VisitsGrow(t.visits, u.visits)
    && (Pending(u) ==> Pending(t))
  }

  /**
   * `b` is a later state of `a` within one tick: the same transactions and
   * sites, each a later version of itself, with the lock tables kept valid
   * and the notices only appended to.
   */
  predicate Evolves(a: Db, b: Db) {
    && b.time == a.time
    && |b.txs| == |a.txs| && (forall k :: 0 <= k < |a.txs| ==> Follows(a.txs[k], b.txs[k]))
    && |b.sites| == |a.sites| && (forall k :: 0 <= k < |a.sites| ==> SameLayout(a.sites[k], b.sites[k]))
    && (SiteManager.AllValid(a.sites) ==> SiteManager.AllValid(b.sites))
    && a.events <= b.events
  }

  /**
   * Replacing the sites by ones with the same layouts and states and one
   * transaction by a later version of itself, and appending notices, is an
   * evolution.
   */
  lemma UpdateEvolves(db: Db, i: nat, u: Transaction, sites: seq<Site>, events: seq<Event>)
    requires i < |db.txs| && Follows(db.txs[i], u)
    requires |sites| == |db.sites| && forall k :: 0 <= k < |sites| ==> SameLayout(db.sites[k], sites[k])
    requires SiteManager.AllValid(db.sites) ==> SiteManager.AllValid(sites)
    requires db.events <= events
    ensures Evolves(db, db.(sites := sites, txs := db.txs[i := u], events := events))
  {
  }

  lemma EvolvesTransitive(a: Db, b: Db, c: Db)
    requires Evolves(a, b) && Evolves(b, c)
    ensures Evolves(a, c)
  {
  }

  lemma EvolvesReflexive(a: Db)
    ensures Evolves(a, a)
  {
  }

  /** The number of transactions that still have work: the measure reruns decrease. */
  function CountPending(txs: seq<Transaction>): (n: nat)
    ensures n <= |txs|
  {
    if txs == [] then 0 else (if Pending(txs[0]) then 1 else 0) + CountPending(txs[1..])
  }

  lemma {:induction false} CountPendingMonotone(a: seq<Transaction>, b: seq<Transaction>)
    requires |a| == |b| && forall k :: 0 <= k < |a| ==> (Pending(b[k]) ==> Pending(a[k]))
    ensures CountPending(b) <= CountPending(a)
    decreases |a|
  {
    if a != [] {
      CountPendingMonotone(a[1..], b[1..]);
    }
  }

  /** A transaction that finishes its work while no other gains any lowers the count. */
  lemma {:induction false} CountPendingDrops(a: seq<Transaction>, b: seq<Transaction>, i: nat)
    requires |a| == |b| && i < |a| && Pending(a[i]) && !Pending(b[i])
    requires forall k :: 0 <= k < |a| ==> (Pending(b[k]) ==> Pending(a[k]))
    ensures CountPending(b) < CountPending(a)
    decreases |a|
  {
    if i == 0 {
      CountPendingMonotone(a[1..], b[1..]);
    } else {
      CountPendingDrops(a[1..], b[1..], i - 1);
    }
  }

  /**
   * `b` is a later state of `a` within one tick in which transactions may
   * also have been begun: the old ones evolved and new ones were appended.
   */
  predicate Grows(a: Db, b: Db) {
    |a.txs| <= |b.txs| && Evolves(a, b.(txs := b.txs[..|a.txs|]))
  }

  lemma EvolvesGrows(a: Db, b: Db)
    requires Evolves(a, b)
    ensures Grows(a, b)
  {
    assert b.txs[..|a.txs|] == b.txs;
  }

  lemma GrowsTransitive(a: Db, b: Db, c: Db)
    requires Grows(a, b) && Grows(b, c)
    ensures Grows(a, c)
  {
    var n := |a.txs|;
    assert forall k :: 0 <= k < n ==> c.txs[..n][k] == c.txs[..|b.txs|][k];
  }

  /** No transaction gains work along an evolution, so the count of pending transactions never grows. */
  lemma EvolvesCount(a: Db, b: Db)
    requires Evolves(a, b)
    ensures CountPending(b.txs) <= CountPending(a.txs)
  {
    CountPendingMonotone(a.txs, b.txs);
  }

  /** Every buffered write carries the value to write. */
  predicate BuffersHaveValues(txs: seq<Transaction>) {
    forall k :: 0 <= k < |txs| && txs[k].buffer.Some? && txs[k].buffer.value.kind == Operations.Write ==>
      txs[k].buffer.value.writeValue.Some?
  }

  /** No two transactions share a name: `BeginTransaction` refuses a name already in the table. */
  predicate UniqueNames(txs: seq<Transaction>) {
    forall i, j :: 0 <= i < j < |txs| ==> txs[i].name != txs[j].name
  }

  /** An evolution renames nothing, so names that were unique stay unique. */
  lemma EvolvesKeepsUnique(a: Db, b: Db)
    requires Evolves(a, b) && UniqueNames(a.txs)
    ensures UniqueNames(b.txs)
  {
    assert forall k :: 0 <= k < |a.txs| ==> b.txs[k].name == a.txs[k].name by {
      forall k | 0 <= k < |a.txs| ensures b.txs[k].name == a.txs[k].name {
        assert Follows(a.txs[k], b.txs[k]);
      }
    }
  }

  /** The position of the transaction named exactly `name` (`Dictionary` keys compared by name). */
  function IndexOf(txs: seq<Transaction>, name: string): (r: Option<nat>)
    ensures r.Some? ==> r.value < |txs| && txs[r.value].name == name
    ensures r.Some? ==> forall j :: 0 <= j < r.value ==> txs[j].name != name
    ensures r.None? <==> forall j :: 0 <= j < |txs| ==> txs[j].name != name
  {
    if txs == [] then None
    else if txs[0].name == name then Some(0)
    else match IndexOf(txs[1..], name)
      case None => None
      case Some(k) => Some(k + 1)
  }
}
