/**
 * One site: its copies of variables, its lock table, and whether it is up
 * (src/Sites/Site.cs). Site.cs defines none of the methods the managers
 * call on a site; those are modelled here from their call sites.
 */
module Sites {
  import opened Variables
  import opened Transactions
  import LockManager

  datatype SiteState = Stable | Recovering | Fail

  datatype Site = Site(
    id: int,
    data: seq<Variable>,
    locks: seq<LockManager.Lock>,
    state: SiteState,
    upSince: int)

  /** A new site is up since time 0 with the given copies and an empty lock table. */
  function New(id: int, data: seq<Variable>): (s: Site)
    ensures s.id == id && s.data == data
    ensures s.locks == [] && s.state == Stable
  {
    Site(id, data, [], Stable, 0)
  }

  predicate HoldsVariable(s: Site, name: string) {
    exists k :: 0 <= k < |s.data| && s.data[k].name == name
  }

  /** The position of the copy of `name` at the site. */
  function VariableIndex(s: Site, name: string): (k: nat)
    requires HoldsVariable(s, name)
    ensures k < |s.data| && s.data[k].name == name
    ensures forall j :: 0 <= j < k ==> s.data[j].name != name
  {
    VariableIndexFrom(s.data, name)
  }

  function VariableIndexFrom(data: seq<Variable>, name: string): (k: nat)
    requires exists k :: 0 <= k < |data| && data[k].name == name
    ensures k < |data| && data[k].name == name
    ensures forall j :: 0 <= j < k ==> data[j].name != name
  {
    if data[0].name == name then 0
    else
      assert exists k :: 0 <= k < |data[1..]| && data[1..][k].name == name by {
        var k :| 0 <= k < |data| && data[k].name == name;
        assert data[1..][k - 1] == data[k];
      }
      1 + VariableIndexFrom(data[1..], name)
  }

  /** The two sites hold copies of the same variables in the same places. */
  predicate SameLayout(a: Site, b: Site) {
    && a.id == b.id
    && |a.data| == |b.data|
    && forall k :: 0 <= k < |a.data| ==>
         a.data[k].id == b.data[k].id && a.data[k].name == b.data[k].name
         && a.data[k].isReplicated == b.data[k].isReplicated
  }

  /** Sites with the same layout hold the same variables. */
  lemma SameLayoutHolds(a: Site, b: Site, name: string)
    requires SameLayout(a, b)
    ensures HoldsVariable(a, name) <==> HoldsVariable(b, name)
  {
    if HoldsVariable(a, name) {
      var k :| 0 <= k < |a.data| && a.data[k].name == name;
      assert b.data[k].name == name;
    }
    if HoldsVariable(b, name) {
      var k :| 0 <= k < |b.data| && b.data[k].name == name;
      assert a.data[k].name == name;
    }
  }

  /** The site's lock table keeps its invariant. */
  predicate Valid(s: Site) {
    LockManager.Valid(s.locks)
  }

  /** Asks the site's lock table for a read lock on its copy of `name`. */
  function GetReadLock(s: Site, t: Transaction, name: string): (r: (bool, Site))
    requires HoldsVariable(s, name)
    ensures var g := LockManager.GetReadLock(s.locks, t, s.data[VariableIndex(s, name)]);
      r == (g.0, s.(locks := g.1))
    ensures Valid(s) ==> Valid(r.1)
  {
    var g := LockManager.GetReadLock(s.locks, t, s.data[VariableIndex(s, name)]);
    (g.0, s.(locks := g.1))
  }

  /** Asks the site's lock table for a write lock on `name`. */
  function GetWriteLock(s: Site, t: Transaction, name: string): (r: (bool, Site))
    requires HoldsVariable(s, name)
    ensures var g := LockManager.GetWriteLock(s.locks, t.name, name);
      r == (g.0, s.(locks := g.1))
    ensures Valid(s) ==> Valid(r.1)
  {
    var g := LockManager.GetWriteLock(s.locks, t.name, name);
    (g.0, s.(locks := g.1))
  }

  /** Stores an uncommitted value in the copy of `name`; nothing else changes. */
  function WriteData(s: Site, name: string, value: int): (r: Site)
    requires HoldsVariable(s, name)
    ensures SameLayout(s, r) && r.locks == s.locks && r.state == s.state && r.upSince == s.upSince
    ensures r.data[VariableIndex(s, name)].updatedValue == value
    ensures forall k :: 0 <= k < |s.data| && k != VariableIndex(s, name) ==> r.data[k] == s.data[k]
  {
    var k := VariableIndex(s, name);
    s.(data := s.data[k := s.data[k].(updatedValue := value)])
  }

  /**
   * Commits the values `tx` wrote: every copy it write-locks takes its
   * uncommitted value and becomes readable again; the other copies stay.
   */
  function CommitValue(s: Site, tx: string): (r: Site)
    ensures SameLayout(s, r) && r.locks == s.locks && r.state == s.state && r.upSince == s.upSince
    ensures forall k :: 0 <= k < |s.data| ==>
      if LockManager.Lock(LockManager.Write, tx, s.data[k].name) in s.locks
      then r.data[k] == s.data[k].(value := s.data[k].updatedValue, readable := true)
      else r.data[k] == s.data[k]
  {
    var written := LockManager.GetWriteLockedData(s.locks, tx);
    s.(data := seq(|s.data|, k requires 0 <= k < |s.data| =>
      if s.data[k].name in written
      then s.data[k].(value := s.data[k].updatedValue, readable := true)
      else s.data[k]))
  }

  /** Releases every lock `tx` holds here. */
  function ClearLocks(s: Site, tx: string): (r: Site)
    ensures r == s.(locks := LockManager.ClearLocks(s.locks, tx))
    ensures Valid(s) ==> Valid(r)
  {
    s.(locks := LockManager.ClearLocks(s.locks, tx))
  }

  /** The transactions whose locks here keep `tx` from `name`, one per blocking lock. */
  function GetBlockingTransactions(s: Site, tx: string, name: string): (r: seq<string>)
    ensures forall u :: u in r <==> u != tx && LockManager.Holds(s.locks, u, name)
  {
    var blocking := LockManager.GetBlockingLocks(s.locks, tx, name);
    var r := seq(|blocking|, k requires 0 <= k < |blocking| => blocking[k].transaction);
    assert forall u :: u != tx && LockManager.Holds(s.locks, u, name) ==> u in r by {
      forall u | u != tx && LockManager.Holds(s.locks, u, name)
        ensures u in r
      {
        var k :| 0 <= k < |s.locks| && s.locks[k].transaction == u && s.locks[k].variable == name;
        assert s.locks[k] in blocking;
        var j :| 0 <= j < |blocking| && blocking[j] == s.locks[k];
        assert r[j] == u;
      }
    }
    assert forall u :: u in r ==> u != tx && LockManager.Holds(s.locks, u, name) by {
      forall u | u in r
        ensures u != tx && LockManager.Holds(s.locks, u, name)
      {
        var j :| 0 <= j < |r| && r[j] == u;
        assert blocking[j] in s.locks;
        var k :| 0 <= k < |s.locks| && s.locks[k] == blocking[j];
      }
    }
    r
  }

  /**
   * Takes the site down: its lock table is discarded and its replicated
   * copies may no longer be read until a write commits to them.
   */
  function SiteFail(s: Site): (r: Site)
    ensures SameLayout(s, r) && r.state == Fail && r.locks == [] && r.upSince == s.upSince
    ensures forall k :: 0 <= k < |s.data| ==>
      r.data[k] == (if s.data[k].isReplicated then s.data[k].(readable := false) else s.data[k])
  {
    s.(state := Fail, locks := [], data := seq(|s.data|, k requires 0 <= k < |s.data| =>
      if s.data[k].isReplicated then s.data[k].(readable := false) else s.data[k]))
  }

  /**
   * Brings the site back up at time `now`: it is up from `now` on, and its
   * copies and lock table are those it had while down.
   */
  function SiteRecover(s: Site, now: int): (r: Site)
    ensures r.state == Stable && r.upSince == now
    ensures r.id == s.id && r.data == s.data && r.locks == s.locks
  {
    s.(state := Stable, upSince := now)
  }

  /**
   * A failure followed by a recovery at time `now` leaves the site up since
   * `now` with an empty lock table and the same layout; its unreplicated
   * copies are as before and its replicated copies are unreadable.
   */
  lemma RecoverAfterFail(s: Site, now: int)
    ensures var r := SiteRecover(SiteFail(s), now);
      && r.state == Stable && r.upSince == now && r.locks == [] && SameLayout(s, r)
      && forall k :: 0 <= k < |s.data| ==>
           (s.data[k].isReplicated ==> !r.data[k].readable && r.data[k].value == s.data[k].value)
           && (!s.data[k].isReplicated ==> r.data[k] == s.data[k])
  {
  }
}
