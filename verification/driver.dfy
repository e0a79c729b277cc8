/*
 * The main loop: each input line is one clock tick. The tick's site
 * operations (dump, fail, recover) go to the site manager first, in
 * input order; the remaining operations then go to the transaction
 * manager, which reruns the waiting transactions before running them.
 */
module Driver {
  import opened Wrappers
  import opened Outcomes
  import opened Database
  import opened Operations
  import SiteManager
  import TransactionManager

  /** The operations of `ops` that the site manager handles, in input order. */
  function SiteOps(ops: seq<Operation>): (r: seq<Operation>)
    ensures forall k :: 0 <= k < |r| ==> IsSiteOperation(r[k].kind)
    ensures |r| <= |ops|
  {
    if ops == [] then []
    else (if IsSiteOperation(ops[0].kind) then [ops[0]] else []) + SiteOps(ops[1..])
  }

  /** The operations of `ops` that the transaction manager handles, in input order. */
  function TransactionOps(ops: seq<Operation>): (r: seq<Operation>)
    ensures forall k :: 0 <= k < |r| ==> !IsSiteOperation(r[k].kind)
    ensures |r| <= |ops|
  {
    if ops == [] then []
    else (if IsSiteOperation(ops[0].kind) then [] else [ops[0]]) + TransactionOps(ops[1..])
  }

  /** The two filters split the tick's operations: each operation goes to exactly one manager. */
  lemma {:induction false} OpsPartition(ops: seq<Operation>)
    ensures multiset(SiteOps(ops)) + multiset(TransactionOps(ops)) == multiset(ops)
    ensures |SiteOps(ops)| + |TransactionOps(ops)| == |ops|
    decreases |ops|
  {
    if ops != [] {
      OpsPartition(ops[1..]);
      assert ops == [ops[0]] + ops[1..];
    }
  }

  /** Filtering keeps the relative order of the operations a manager receives. */
  lemma {:induction false} SiteOpsOfSiteOps(ops: seq<Operation>)
    requires forall k :: 0 <= k < |ops| ==> IsSiteOperation(ops[k].kind)
    ensures SiteOps(ops) == ops && TransactionOps(ops) == []
    decreases |ops|
  {
    if ops != [] {
      SiteOpsOfSiteOps(ops[1..]);
    }
  }

  /** What the model keeps true from one tick to the next. */
  predicate Invariant(db: Db) {
    && SiteManager.DirectoryWF(db.sites)
    && SiteManager.AllValid(db.sites)
    && UniqueNames(db.txs)
    && BuffersHaveValues(db.txs)
  }

  lemma StartInvariant()
    ensures Invariant(Start())
  {
  }

  /**
   * One tick: the clock advances, the site operations run, then the
   * transaction operations run (with the waiting transactions rerun
   * first). The first failure ends the tick. `mode` chooses the rerun of
   * the waiting transactions: `AsWritten` is the program as it stands,
   * `SkipCleared` the corrected rerun.
   */
  function Step(db: Db, ops: seq<Operation>, mode: TransactionManager.RerunMode): (r: Result<Db, Error>)
    requires SiteManager.DirectoryWF(db.sites)
    ensures r.Ok? ==> r.value.time == db.time + 1 && db.events <= r.value.events
    ensures r.Ok? ==> |db.txs| <= |r.value.txs|
    ensures r.Ok? && Invariant(db) ==> Invariant(r.value)
    ensures r.Err? && BuffersHaveValues(db.txs) && mode == TransactionManager.SkipCleared ==> !r.error.EmptyBuffer?
  {
    var now := db.time + 1;
    match SiteManager.Execute(db.sites, SiteOps(ops), now)
    case Err(e) => Err(e)
    case Ok((sites, events)) =>
      var d := Db(now, sites, db.txs, db.events + events);
      var r := TransactionManager.Execute(d, TransactionOps(ops), mode);
      assert r.Ok? ==> SiteManager.DirectoryWF(r.value.sites) by {
        if r.Ok? {
          var b := r.value.(txs := r.value.txs[..|d.txs|]);
          assert Evolves(d, b);
          assert forall i :: 0 <= i < |sites| ==> sites[i].id == b.sites[i].id;
        }
      }
      r
  }

  /** Runs the ticks in order from `db`, stopping at the first failure. */
  function Run(db: Db, lines: seq<seq<Operation>>, mode: TransactionManager.RerunMode): (r: Result<Db, Error>)
    requires SiteManager.DirectoryWF(db.sites)
    ensures r.Ok? ==> r.value.time == db.time + |lines| && db.events <= r.value.events
    ensures r.Ok? && Invariant(db) ==> Invariant(r.value)
    ensures r.Err? && BuffersHaveValues(db.txs) && mode == TransactionManager.SkipCleared ==> !r.error.EmptyBuffer?
    decreases |lines|
  {
    if lines == [] then Ok(db)
    else
      match Step(db, lines[0], mode)
      case Err(e) => Err(e)
      case Ok(d) => Run(d, lines[1..], mode)
  }

  /**
   * From start-up, every run that does not fail keeps the invariant, and its
   * clock counts the lines read; with the corrected rerun no run fails on an
   * empty buffer.
   */
  lemma RunFromStart(lines: seq<seq<Operation>>, mode: TransactionManager.RerunMode)
    ensures var r := Run(Start(), lines, mode);
      && (r.Ok? ==> Invariant(r.value) && r.value.time == |lines|)
      && (r.Err? && mode == TransactionManager.SkipCleared ==> !r.error.EmptyBuffer?)
  {
    StartInvariant();
  }
}
