/**
 * The transaction record. Transaction.cs declares only the name and the
 * read-only flag; the other properties mean here what their uses in the
 * transaction and deadlock managers make them mean.
 */
module Transactions {
  import opened Wrappers
  import opened Operations

  datatype TxState = Running | Waiting | Blocked | Committed | Aborted

  /** Only reads, writes and ends are ever buffered. */
  type BufferedOp = op: Operation | op.kind == Read || op.kind == Write || op.kind == End
    witness Operation(Read, "", None, "", None)

  /**
   * A transaction, with the sites it has visited mapped to the time of its
   * first visit (the per-transaction dictionary of the transaction manager).
   */
  datatype Transaction = Transaction(
    name: string,
    isReadOnly: bool,
    state: TxState,
    startTime: int,
    endTime: int,
    waitTime: int,
    buffer: Option<BufferedOp>,
    visits: map<int, int>)

  /** A transaction as `begin`/`beginRO` creates it at time `now`. */
  function New(name: string, isReadOnly: bool, now: int): (t: Transaction)
    ensures t.name == name && t.isReadOnly == isReadOnly && t.startTime == now
    ensures t.state == Running && t.buffer == None && t.visits == map[]
  {
    Transaction(name, isReadOnly, Running, now, 0, 0, None, map[])
  }

  /** Waiting or Blocked: the transaction has an operation it could not yet perform. */
  predicate IsWaiting(t: Transaction) {
    t.state == Waiting || t.state == Blocked
  }

  /** Neither committed nor aborted. */
  predicate Active(t: Transaction) {
    t.state != Committed && t.state != Aborted
  }

  /** Still has work left: active, or holding a buffered operation. */
  predicate Pending(t: Transaction) {
    Active(t) || t.buffer.Some?
  }

  /**
   * Drops the buffered operation and resumes running: the result has no
   * buffer, is neither waiting nor finished, and keeps the name, kind,
   * times and visits of `t`.
   */
  function ClearBuffer(t: Transaction): (r: Transaction)
    ensures r.buffer.None? && r.state == Running && !IsWaiting(r) && Active(r)
    ensures r.name == t.name && r.isReadOnly == t.isReadOnly && r.visits == t.visits
    ensures r.startTime == t.startTime && r.endTime == t.endTime && r.waitTime == t.waitTime
  {
    t.(buffer := None, state := Running)
  }

  /** Records a visit of `site` at time `now` unless an earlier visit is recorded. */
  function AddSite(t: Transaction, site: int, now: int): (r: Transaction)
    ensures r.visits.Keys == t.visits.Keys + {site}
    ensures forall s :: s in t.visits ==> r.visits[s] == t.visits[s]
    ensures site !in t.visits ==> r.visits[site] == now
    ensures r == t.(visits := r.visits)
  {
    if site in t.visits then t else t.(visits := t.visits[site := now])
  }

  /**
   * Buffers `op` as Waiting or Blocked at time `now`; a transaction that
   * already buffers an operation is left exactly as it is.
   */
  function BufferOperation(t: Transaction, op: BufferedOp, state: TxState, now: int): (r: Transaction)
    ensures t.buffer.Some? ==> r == t
    ensures t.buffer.None? ==> r == t.(state := state, waitTime := now, buffer := Some(op))
  {
    if t.buffer.None? then t.(state := state, waitTime := now, buffer := Some(op)) else t
  }

  /** The visit time of a site never changes once recorded, however often it is visited again. */
  lemma {:induction false} FirstVisitStays(t: Transaction, sites: seq<int>, times: seq<int>, s: int)
    requires |sites| == |times| && s in t.visits
    ensures s in AddSites(t, sites, times).visits && AddSites(t, sites, times).visits[s] == t.visits[s]
    decreases |sites|
  {
    if |sites| > 0 {
      FirstVisitStays(AddSite(t, sites[0], times[0]), sites[1..], times[1..], s);
    }
  }

  /** A run of visits, one per (site, time) pair. */
  function AddSites(t: Transaction, sites: seq<int>, times: seq<int>): Transaction
    requires |sites| == |times|
    decreases |sites|
  {
    if sites == [] then t else AddSites(AddSite(t, sites[0], times[0]), sites[1..], times[1..])
  }
}
