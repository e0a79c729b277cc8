/**
 * A rerun pass inside a rerun pass. `RerunTransactions` fixes the list of
 * waiting transactions before it starts; when one of them ends, the end
 * reruns every waiting transaction again, and a later member of the outer
 * list may be served by that inner pass. The outer pass then reruns its
 * buffer, which is empty by now.
 *
 * The state below is the one reached after the ticks
 * `begin(T1); beginRO(T2)`, `R(T2,x3)`, `fail(4)`, `end(T2)`, `R(T1,x3)`,
 * `recover(4)`: the read-only T2 read x3 at site 4 and its end waits for that
 * site; T1's read of x3 waits for a Stable copy; site 4 is back up.
 */
module RerunFinding {
  import opened Wrappers
  import opened Transactions
  import opened Sites
  import opened Outcomes
  import opened Database
  import opened TransactionManager
  import Operations
  import Variables
  import LockManager

  const X3: Variables.Variable := Variables.Variable(3, "x3", 30, 0, false, true)
  const Site4: Site := Site(4, [X3], [], Stable, 6)
  const ReadX3: BufferedOp := Operations.Operation(Operations.Read, "T1", None, "x3", None)
  const EndT2: BufferedOp := Operations.Operation(Operations.End, "T2", None, "", None)
  const T1: Transaction := Transaction("T1", false, Waiting, 1, 0, 5, Some(ReadX3), map[])
  const T2: Transaction := Transaction("T2", true, Waiting, 1, 0, 4, Some(EndT2), map[4 := 2])

  /** The state at the start of the sixth tick, reduced to site 4. */
  function Tick6(): (db: Db)
    ensures db.time == 6 && db.sites == [Site4] && db.txs == [T1, T2] && db.events == []
  {
    Db(6, [Site4], [T1, T2], [])
  }

  /** T2 started waiting earlier, so it is rerun first. */
  lemma Tick6Order()
    ensures WaitOrder(Tick6().txs) == [1, 0]
  {
    var txs := Tick6().txs;
    assert Before(txs, 1, 0);
    assert forall y :: y in WaitOrder(txs) <==> y in [1, 0];
    WaitOrderUnique(txs, WaitOrder(txs), [1, 0]);
  }

  /** T2 read from site 4 alone, which is up: T2 can commit. */
  lemma T2CanCommit()
    ensures CanCommit(Tick6().sites, Tick6().txs[1].(buffer := None, endTime := 6))
  {
  }

  /** Committing T2, which wrote nothing and holds no lock, leaves site 4 as it was. */
  lemma EndT2KeepsSite4()
    ensures Finish(Tick6(), 1).sites == [Site4]
  {
    var db := Tick6();
    var t := db.txs[1].(buffer := None, endTime := db.time);
    T2CanCommit();
    var e := Finish(db, 1);
    assert e.sites == CommitWrites(db.sites, t);
    assert VisitedStable(db.sites, t, 0);
    var c := CommitValue(Site4, "T2");
    assert c.data == Site4.data by {
      assert c.data[0] == X3;
    }
    assert c.locks == [] && LockManager.ClearLocks([], "T2") == [];
    assert e.sites[0] == Site4;
  }

  /** Ending T2 commits it and leaves T1 waiting alone. */
  lemma EndT2Txs()
    ensures var e := Finish(Tick6(), 1);
      e.txs[0] == T1 && e.txs[1].state == Committed && e.txs[1].buffer == None
  {
    T2CanCommit();
  }

  /** Ending T2 commits it: the state the inner pass starts from. */
  lemma EndCommitsT2()
    ensures var e := Finish(Tick6(), 1);
      e.txs[0] == T1 && e.txs[1].state == Committed && e.txs[1].buffer == None
      && e.sites == [Site4] && WaitOrder(e.txs) == [0]
  {
    EndT2KeepsSite4();
    EndT2Txs();
    OnlyT1Waits(Finish(Tick6(), 1).txs);
  }

  /** With T2 done, only T1 is left to rerun. */
  lemma OnlyT1Waits(txs: seq<Transaction>)
    requires |txs| == 2 && txs[0] == T1 && txs[1].state == Committed
    ensures WaitOrder(txs) == [0]
  {
    assert forall y :: y in WaitOrder(txs) <==> y in [0];
    WaitOrderUnique(txs, WaitOrder(txs), [0]);
  }

  /** Site 4, with no locks, grants T1 a read lock on x3: it is the first granter. */
  lemma Site4GrantsT1()
    ensures Sites.HoldsVariable(Site4, "x3")
    ensures FirstGranter([Site4], T1, "x3", 0)
  {
    assert Site4.data[0].name == "x3";
    assert Sites.VariableIndex(Site4, "x3") == 0;
    assert LockManager.GetReadLock([], T1, X3).0;
    assert GrantsRead([Site4], 0, T1, "x3");
  }

  /** In the inner pass site 4 grants T1 its read of x3, which empties T1's buffer. */
  lemma InnerPassServesT1(mode: RerunMode)
    ensures var e := Finish(Tick6(), 1);
      e.sites == [Site4] && Sites.HoldsVariable(Site4, "x3") && Rerun(e, mode) == Ok(Serve(e, 0, 0, "x3"))
  {
    var e := Finish(Tick6(), 1);
    EndCommitsT2();
    Site4GrantsT1();
    var d := ReadVariable(e, 0, ReadX3);
    assert d == Serve(e, 0, 0, "x3");
    assert RunBuffered(e, 0, mode) == Ok(d);
    assert RerunList(d, [0][1..], mode) == Ok(d);
  }

  /** The state after the outer pass's first step, the end of T2 with its inner pass. */
  function AfterEndT2(): Db
  {
    EndCommitsT2();
    Site4GrantsT1();
    Serve(Finish(Tick6(), 1), 0, 0, "x3")
  }

  /** T2's buffered operation is its end. */
  lemma RunEndT2(mode: RerunMode)
    ensures RunBuffered(Tick6(), 1, mode) == EndTransaction(Tick6(), 1, EndT2, mode)
  {
    assert Tick6().txs[1].buffer == Some(EndT2);
  }

  /** Site 4 is up again, so T2's end no longer waits: T2 finishes and the waiting transactions rerun. */
  lemma EndT2Reruns(mode: RerunMode)
    ensures EndTransaction(Tick6(), 1, EndT2, mode) == Rerun(Finish(Tick6(), 1), mode)
  {
    assert !HasDownSite(Tick6().sites, T2);
  }

  /** Rerunning T2's end commits it and, through the inner pass, serves T1. */
  lemma FirstStep(mode: RerunMode)
    ensures RunBuffered(Tick6(), 1, mode) == Ok(AfterEndT2())
  {
    RunEndT2(mode);
    EndT2Reruns(mode);
    InnerPassServesT1(mode);
  }

  /** A one-element list reruns just that transaction. */
  lemma RerunSingle(db: Db, i: nat, mode: RerunMode)
    requires i < |db.txs|
    ensures RerunList(db, [i], mode) == RunBuffered(db, i, mode)
  {
    assert [i][1..] == [];
  }

  /** After the first step, T1 has been served and T2 has committed. */
  lemma AfterEndT2Shape()
    ensures AfterEndT2().txs[0].buffer == None && AfterEndT2().txs[0].name == "T1"
    ensures |AfterEndT2().txs| == 2 && AfterEndT2().txs[1].state == Committed
  {
    EndCommitsT2();
  }

  /** The outer pass: T2's end (with the inner pass), then T1 from the list fixed at the start. */
  lemma OuterPass(mode: RerunMode)
    ensures Rerun(Tick6(), mode) == RunBuffered(AfterEndT2(), 0, mode)
    ensures AfterEndT2().txs[0].buffer == None && AfterEndT2().txs[0].name == "T1"
    ensures |AfterEndT2().txs| == 2 && AfterEndT2().txs[1].state == Committed
  {
    Tick6Order();
    FirstStep(mode);
    AfterEndT2Shape();
    assert [1, 0][1..] == [0];
    assert Rerun(Tick6(), mode) == RerunList(AfterEndT2(), [0], mode);
    RerunSingle(AfterEndT2(), 0, mode);
  }

  /**
   * As written, the outer pass reaches T1 with an empty buffer: the rerun
   * fails (a null dereference in the program).
   */
  lemma NestedRerunEmptiesBuffer()
    ensures Rerun(Tick6(), AsWritten) == Err(EmptyBuffer("T1"))
  {
    OuterPass(AsWritten);
  }

  /** The corrected pass skips T1, whose read the inner pass has already served, and succeeds. */
  lemma CorrectedRerunSkipsServed()
    ensures Rerun(Tick6(), SkipCleared) == Ok(AfterEndT2())
    ensures AfterEndT2().txs[0].buffer == None && AfterEndT2().txs[1].state == Committed
  {
    OuterPass(SkipCleared);
  }
}
