/**
 * The lock table of one site (src/Locks/LockManager.cs, src/Locks/Lock.cs).
 * Locks name their transaction and variable; a site holds one copy of each
 * of its variables, so a variable name identifies the copy.
 */
module LockManager {
  import opened Variables
  import opened Transactions

  datatype LockType = Read | Write

  datatype Lock = Lock(kind: LockType, transaction: string, variable: string)

  /** `tx` holds some lock, read or write, on `variable`. */
  predicate Holds(locks: seq<Lock>, tx: string, variable: string) {
    exists k :: 0 <= k < |locks| && locks[k].transaction == tx && locks[k].variable == variable
  }

  /** A transaction other than `tx` holds some lock on `variable`. */
  predicate HeldByOther(locks: seq<Lock>, tx: string, variable: string) {
    exists k :: 0 <= k < |locks| && locks[k].transaction != tx && locks[k].variable == variable
  }

  /** Somebody holds a write lock on `variable`. */
  predicate WriteLocked(locks: seq<Lock>, variable: string) {
    exists k :: 0 <= k < |locks| && locks[k].kind == Write && locks[k].variable == variable
  }

  /** A write lock is the only lock on its variable. */
  predicate WriteExclusive(locks: seq<Lock>) {
    forall i, j :: 0 <= i < |locks| && 0 <= j < |locks| && i != j && locks[i].variable == locks[j].variable
      ==> locks[i].kind == Read
  }

  /** No transaction holds two locks on one variable. */
  predicate OnePerTransaction(locks: seq<Lock>) {
    forall i, j :: 0 <= i < |locks| && 0 <= j < |locks| && i != j && locks[i].variable == locks[j].variable
      ==> locks[i].transaction != locks[j].transaction
  }

  /** The lock-table invariant: shared reads from distinct transactions, or one exclusive write. */
  predicate Valid(locks: seq<Lock>) {
    WriteExclusive(locks) && OnePerTransaction(locks)
  }

  /** `locks.Where(l => l.Variable == variable)` */
  function OnVariable(locks: seq<Lock>, variable: string): (r: seq<Lock>)
    ensures forall l :: l in r <==> l in locks && l.variable == variable
  {
    if locks == [] then []
    else if locks[0].variable == variable then [locks[0]] + OnVariable(locks[1..], variable)
    else OnVariable(locks[1..], variable)
  }

  /** `locks.Any(l => l.Transaction == tx)` */
  predicate AnyOf(locks: seq<Lock>, tx: string) {
    exists l :: l in locks && l.transaction == tx
  }

  /** `locks.Any(l => l.Type == LockType.Write)` */
  predicate AnyWrite(locks: seq<Lock>) {
    exists l :: l in locks && l.kind == Write
  }

  /** `locks.Any(l => l.Transaction != tx)` */
  predicate AnyOther(locks: seq<Lock>, tx: string) {
    exists l :: l in locks && l.transaction != tx
  }

  /**
   * Asks for a read lock. Denied on an unreadable copy; granted without a
   * new lock to a read-only transaction or to one that already holds a lock
   * on the variable; denied when another transaction write-locks it;
   * otherwise granted with one new read lock at the end of the table.
   */
  function GetReadLock(locks: seq<Lock>, t: Transaction, v: Variable): (r: (bool, seq<Lock>))
    ensures !v.readable ==> r == (false, locks)
    ensures v.readable && t.isReadOnly ==> r == (true, locks)
    ensures v.readable && !t.isReadOnly && Holds(locks, t.name, v.name) ==> r == (true, locks)
    ensures v.readable && !t.isReadOnly && !Holds(locks, t.name, v.name) && WriteLocked(locks, v.name)
      ==> r == (false, locks)
    ensures v.readable && !t.isReadOnly && !Holds(locks, t.name, v.name) && !WriteLocked(locks, v.name)
      ==> r == (true, locks + [Lock(Read, t.name, v.name)])
    ensures Valid(locks) ==> Valid(r.1)
  {
    if !v.readable then (false, locks)
    else if t.isReadOnly then (true, locks)
    else
      var mine := OnVariable(locks, v.name);
      if AnyOf(mine, t.name) then (true, locks)
      else if AnyWrite(mine) then (false, locks)
      else (true, locks + [Lock(Read, t.name, v.name)])
  }

  /** Index of the first lock `tx` holds on `variable` (`FirstOrDefault`). */
  function FirstHeld(locks: seq<Lock>, tx: string, variable: string): (k: nat)
    requires Holds(locks, tx, variable)
    ensures k < |locks| && locks[k].transaction == tx && locks[k].variable == variable
    ensures forall j :: 0 <= j < k ==> !(locks[j].transaction == tx && locks[j].variable == variable)
  {
    if locks[0].transaction == tx && locks[0].variable == variable then 0
    else
      assert Holds(locks[1..], tx, variable) by {
        var k :| 0 <= k < |locks| && locks[k].transaction == tx && locks[k].variable == variable;
        assert locks[1..][k - 1] == locks[k];
      }
      1 + FirstHeld(locks[1..], tx, variable)
  }

  /**
   * Asks for a write lock. Denied, with the table unchanged, when any other
   * transaction holds any lock on the variable; otherwise the transaction's
   * own lock is upgraded in place, or a new write lock is appended when it
   * has none.
   */
  function GetWriteLock(locks: seq<Lock>, tx: string, variable: string): (r: (bool, seq<Lock>))
    ensures HeldByOther(locks, tx, variable) ==> r == (false, locks)
    ensures !HeldByOther(locks, tx, variable) && Holds(locks, tx, variable)
      ==> r == (true, locks[FirstHeld(locks, tx, variable) := Lock(Write, tx, variable)])
    ensures !HeldByOther(locks, tx, variable) && !Holds(locks, tx, variable)
      ==> r == (true, locks + [Lock(Write, tx, variable)])
    ensures Valid(locks) ==> Valid(r.1)
    ensures r.0 ==> HasWriteLock(r.1, tx, variable)
  {
    var mine := OnVariable(locks, variable);
    if AnyOther(mine, tx) then (false, locks)
    else if AnyOf(mine, tx) then
      var k := FirstHeld(locks, tx, variable);
      var upgraded := locks[k := Lock(Write, tx, variable)];
      assert upgraded[k] in upgraded;
      assert Lock(Write, tx, variable) in OnVariable(upgraded, variable);
      (true, upgraded)
    else
      var extended := locks + [Lock(Write, tx, variable)];
      assert Lock(Write, tx, variable) in OnVariable(extended, variable);
      (true, extended)
  }

  /** Whether `tx` holds a write lock on `variable`. */
  predicate HasWriteLock(locks: seq<Lock>, tx: string, variable: string) {
    exists l :: l in OnVariable(locks, variable) && l.kind == Write && l.transaction == tx
  }

  /**
   * `tx` holds a write lock on `variable` exactly when that lock is in the
   * table, and then `variable` is among the data `tx` write-locks.
   */
  lemma HasWriteLockIff(locks: seq<Lock>, tx: string, variable: string)
    ensures HasWriteLock(locks, tx, variable) <==> Lock(Write, tx, variable) in locks
    ensures HasWriteLock(locks, tx, variable) <==> variable in GetWriteLockedData(locks, tx)
  {
    if Lock(Write, tx, variable) in locks {
      assert Lock(Write, tx, variable) in OnVariable(locks, variable);
    }
  }

  /** The variables `tx` write-locks, in lock order. */
  function GetWriteLockedData(locks: seq<Lock>, tx: string): (r: seq<string>)
    ensures forall x :: x in r <==> Lock(Write, tx, x) in locks
    ensures |r| <= |locks|
  {
    if locks == [] then []
    else if locks[0].transaction == tx && locks[0].kind == Write
    then [locks[0].variable] + GetWriteLockedData(locks[1..], tx)
    else GetWriteLockedData(locks[1..], tx)
  }

  /** The locks of other transactions on `variable`: what keeps `tx` from it. */
  function GetBlockingLocks(locks: seq<Lock>, tx: string, variable: string): (r: seq<Lock>)
    ensures forall l :: l in r <==> l in locks && l.transaction != tx && l.variable == variable
    ensures |r| <= |locks|
  {
    if locks == [] then []
    else if locks[0].transaction != tx && locks[0].variable == variable
    then [locks[0]] + GetBlockingLocks(locks[1..], tx, variable)
    else GetBlockingLocks(locks[1..], tx, variable)
  }

  /** Drops every lock of `tx` and keeps every other lock. */
  function ClearLocks(locks: seq<Lock>, tx: string): (r: seq<Lock>)
    ensures forall l :: l in r <==> l in locks && l.transaction != tx
    ensures |r| <= |locks|
    ensures Valid(locks) ==> Valid(r)
  {
    if locks == [] then []
    else
      var rest := ClearLocks(locks[1..], tx);
      TailValid(locks);
      if locks[0].transaction == tx then rest
      else
        ConsValid(locks, rest);
        [locks[0]] + rest
  }

  lemma TailValid(locks: seq<Lock>)
    requires locks != []
    ensures Valid(locks) ==> Valid(locks[1..])
  {
    var t := locks[1..];
    assert forall i :: 0 <= i < |t| ==> t[i] == locks[i + 1];
  }

  /** Keeping the head of a valid table in front of valid locks drawn from its tail keeps it valid. */
  lemma ConsValid(locks: seq<Lock>, rest: seq<Lock>)
    requires locks != [] && forall l :: l in rest ==> l in locks[1..]
    ensures Valid(locks) && Valid(rest) ==> Valid([locks[0]] + rest)
  {
    if !(Valid(locks) && Valid(rest)) {
      return;
    }
    var r := [locks[0]] + rest;
    forall j | 0 < j < |r| && r[j].variable == locks[0].variable
      ensures r[j].kind == Read && locks[0].kind == Read && r[j].transaction != locks[0].transaction
    {
      assert r[j] == rest[j - 1] && rest[j - 1] in rest;
      var m :| 0 <= m < |locks[1..]| && locks[1..][m] == r[j];
      assert locks[m + 1] == r[j];
    }
    forall i, j | 0 < i < |r| && 0 < j < |r| && i != j
      ensures r[i] == rest[i - 1] && r[j] == rest[j - 1]
    {
    }
  }

  /** Once cleared, a transaction holds nothing: no lock, no write lock, no write-locked data. */
  lemma ClearLocksReleasesAll(locks: seq<Lock>, tx: string, variable: string)
    ensures !Holds(ClearLocks(locks, tx), tx, variable)
    ensures !HasWriteLock(ClearLocks(locks, tx), tx, variable)
    ensures GetWriteLockedData(ClearLocks(locks, tx), tx) == []
  {
    var r := ClearLocks(locks, tx);
    assert forall k | 0 <= k < |r| :: r[k] in r;
    var d := GetWriteLockedData(r, tx);
    assert forall k | 0 <= k < |d| :: d[k] in d;
  }

  /** A second read by the same transaction is granted and adds nothing. */
  lemma ReadIsIdempotent(locks: seq<Lock>, t: Transaction, v: Variable)
    requires GetReadLock(locks, t, v).0
    ensures GetReadLock(GetReadLock(locks, t, v).1, t, v) == (true, GetReadLock(locks, t, v).1)
  {
    var after := GetReadLock(locks, t, v).1;
    if v.readable && !t.isReadOnly && after != locks {
      assert after[|after| - 1] == Lock(Read, t.name, v.name);
      assert Holds(after, t.name, v.name);
    }
  }

  /** A read lock its holder later upgrades stays the only lock that holder has on the variable. */
  lemma UpgradeKeepsOneLock(locks: seq<Lock>, t: Transaction, v: Variable)
    requires Valid(locks) && GetReadLock(locks, t, v).0 && !t.isReadOnly
    requires !HeldByOther(GetReadLock(locks, t, v).1, t.name, v.name)
    ensures var after := GetReadLock(locks, t, v).1;
      GetWriteLock(after, t.name, v.name).0 && |GetWriteLock(after, t.name, v.name).1| == |after|
  {
    var after := GetReadLock(locks, t, v).1;
    if !Holds(locks, t.name, v.name) {
      assert after[|after| - 1] == Lock(Read, t.name, v.name);
    }
    assert Holds(after, t.name, v.name);
  }
}
