# distributed-db concurrency core, in Dafny

This project models the concurrency-control engine of `distributed-db`. That program simulates a database whose variables are replicated over ten sites, and it advances in discrete ticks. Each input line is one tick:

- the clock ticks;
- the site operations of the line run (`fail`, `recover`, `dump`);
- the transaction operations run (`begin`, `beginRO`, `R`, `W`, `end`).

The model is functional. It is built from immutable datatypes and pure functions that return a `Result` where the program would call `Logger.Fail`. The state of the whole engine is one value, `Database.Db`:

- the clock time;
- the ten sites, each with its copies of variables, a lock table and an up/down state;
- the transaction table, in insertion order;
- the notices the program would print.

The modules follow the program's structure:

| module | file | what it models |
|---|---|---|
| `Clocks` | clock.dfy | `Clock`: the global time |
| `Variables` | variables.dfy | `Variable`: one site's copy of `x1`..`x20` |
| `Operations` | operations.dfy | `Operation`: the eight kinds and the site/transaction split |
| `Outcomes` | outcomes.dfy | the fatal errors and the printed notices |
| `Transactions` | transactions.dfy | the transaction record: buffer, wait time, first visits |
| `LockManager` | lock_manager.dfy | a site's lock table; read locks shared, write locks exclusive |
| `Sites` | sites.dfy | a site: id, data, lock table, state, up-since time |
| `SiteManager` | site_manager.dfy | the placement rule, site lookup, `fail`, `recover`, `dump` |
| `Database` | database.dfy | the engine state and the commit/abort effect on sites |
| `Graphs` | graph.dfy | `Graph`/`Node`: the adjacency list of the waits-for graph |
| `DeadlockManager` | deadlock_manager.dfy | graph construction, the cycle search, killing the youngest |
| `TransactionManager` | transaction_manager.dfy | begin, read, write, end, commit/abort, buffering, reruns |
| `Text`, `InputParser` | text.dfy, input_parser.dfy | the pure string functions of the parser |
| `Driver` | driver.dfy | one tick: clock, then site operations, then transaction operations |
| `RerunFinding` | rerun_finding.dfy | the rerun defect below, as written and corrected |

Modelling choices:

- **Identity by name.** Transactions are identified by name and sites by id, instead of by C# object reference.
- **Fields that only the managers use.** The `Site`, `Transaction` and `Variable` classes in the repository are older than the managers that use them. Fields such as `UpSince`, `Readable`, `State`, `WaitTime` and `OperationBuffer` are therefore record fields here, and their meaning comes from the call sites.
- **Transaction lookup.** `BeginTransaction` matches names case-sensitively. `GetTransaction` compares lower-cased names. The model keeps both rules, and `TransactionManager.CaseShadowedBegin` shows their consequence: `begin(t1)` after `begin(T1)` is accepted, and the new transaction can never be reached by name.
- **Cycle search.** `HasCycle` shares one `visited` set across the whole search and never removes from it. `GetCycle` returns that whole set. The model keeps both. So the returned set need not be a cycle, and a diamond-shaped acyclic graph is reported as one (`DeadlockManager.DiamondIsReported`).
- **Error cases.** A write whose value is missing fails with `MissingWriteValue`, and a fail or recover without a site fails with `MissingSite`. Both stand for the `InvalidOperationException` that `(int)` throws on a null `int?` (`TransactionManager.cs` line 172, `SiteManager.cs` lines 60 and 63). A rerun whose buffer is empty fails with `EmptyBuffer`, which stands for the `NullReferenceException` the program would throw. Reruns are parameterised by `RerunMode`: `AsWritten` is the program's behaviour, and `SkipCleared` is the correction described under Findings.

## Model

| member | source | states |
|---|---|---|
| Clocks.New | src/Clock.cs:8-11 | a new clock reads time 0 |
| Clocks.Tick | src/Clock.cs:18-21 | a tick advances the time by exactly one |
| Clocks.TicksFromStart | src/Clock.cs:8-21 | after n ticks from construction the time is n |
| Clocks.TimeNeverDecreases | src/Clock.cs:18-21 | more ticks never give an earlier time |
| Clocks.ToStringShowsTime | src/Clock.cs:23-26 | the rendering is "Time ", a number that parses back to the time, and ":" |
| Variables.New | src/Variables/Variable.cs:9-15 | a new copy has name x{id}, value 10·id, is replicated iff the id is even, and is readable |
| Variables.NameCarriesId | src/Variables/Variable.cs:12 | the name is 'x' followed by digits that parse back to the id |
| Variables.NamesDistinct | src/Variables/Variable.cs:12 | different ids give different names |
| Variables.ToStringRoundTrip | src/Variables/Variable.cs:27-30 | "name=value": the name, '=', then a number that parses back to the value |
| Operations.KindsAndPartition | src/Operations/Operation.cs:3-25 | there are exactly eight distinct kinds; the site operations are exactly Dump, Fail and Recover |
| Operations.ToStringFlat | src/Operations/Operation.cs:37-40 | the rendering lists Type, Transaction, Site, Variable and WriteValue, each labelled, in that order, separated by ", " |
| Operations.TypeNamesDistinct | src/Operations/Operation.cs:3-13 | different kinds render under different names |
| Transactions.New | src/Transactions/TransactionManager.cs:112-117 | a new transaction has the given name, read-only flag and start time, runs, buffers nothing and has visited no site |
| Transactions.BufferOperation | src/Transactions/TransactionManager.cs:293-301 | buffering changes nothing when an operation is already buffered; otherwise it sets the state, the wait time and the buffer |
| Transactions.AddSite | src/Transactions/TransactionManager.cs:338-346 | the visited sites gain the site; an earlier visit keeps its time; a first visit records the current time |
| Transactions.FirstVisitStays | src/Transactions/TransactionManager.cs:338-346 | any number of later visits leaves a site's first-visit time unchanged |
| Transactions.ClearBuffer | src/Transactions/TransactionManager.cs:151 | a cleared transaction has no buffered operation and is running again, neither waiting nor finished; its name, kind, start, end and wait times and visited sites are kept |
| LockManager.GetReadLock | src/Locks/LockManager.cs:34-66 | the five cases: unreadable copy denied with no change; read-only granted with no lock; own lock reused; denied under another's write lock; otherwise one read lock appended. The table invariant is kept |
| LockManager.GetWriteLock | src/Locks/LockManager.cs:77-101 | denied with no change if another transaction holds any lock; the caller's own lock upgraded in place; else one write lock appended. The invariant is kept, and a grant leaves the caller holding a write lock |
| LockManager.GetWriteLockedData | src/Locks/LockManager.cs:120-125 | exactly the variables the transaction write-locks |
| LockManager.HasWriteLockIff | src/Locks/LockManager.cs:108-113 | `HasWriteLock` holds iff the table holds the transaction's write lock on the variable, iff the variable is among its write-locked data |
| LockManager.GetBlockingLocks | src/Locks/LockManager.cs:133-138 | exactly the other transactions' locks on the variable |
| LockManager.ClearLocks | src/Locks/LockManager.cs:144-147 | exactly the locks of other transactions remain, and the invariant is kept |
| LockManager.ClearLocksReleasesAll | src/Locks/LockManager.cs:108-147 | after clearing, the transaction holds no lock, `HasWriteLock` is false and `GetWriteLockedData` is empty |
| LockManager.ReadIsIdempotent | src/Locks/LockManager.cs:46-51 | asking again for a granted read lock is granted and changes nothing |
| LockManager.UpgradeKeepsOneLock | src/Locks/LockManager.cs:86-100 | upgrading a held read lock is granted without growing the table |
| Sites.New | src/Sites/Site.cs:16-22 | a new site keeps its id and data, is Stable, and has no locks |
| Sites.GetReadLock | src/Transactions/TransactionManager.cs:146 | the site's lock table answers for its copy of the variable; nothing else of the site changes |
| Sites.GetWriteLock | src/Transactions/TransactionManager.cs:185 | the site's lock table answers the write request; nothing else of the site changes |
| Sites.WriteData | src/Transactions/TransactionManager.cs:200 | the copy's pending value becomes the written value; all other copies, the locks and the state are unchanged |
| Sites.CommitValue | src/Transactions/TransactionManager.cs:266 | each copy write-locked by the transaction takes its pending value and becomes readable; the others are unchanged |
| Sites.ClearLocks | src/Transactions/TransactionManager.cs:267 | only the lock table changes, and its invariant is kept |
| Sites.GetBlockingTransactions | src/Deadlocks/DeadlockManager.cs:57 | exactly the other transactions holding a lock on the variable at the site |
| Sites.SiteFail | src/Sites/SiteManager.cs:87 | a failed site loses its locks, and its replicated copies become unreadable |
| Sites.SiteRecover | src/Sites/SiteManager.cs:105 | a recovered site is Stable and up since the given time; its id, copies and lock table are kept |
| Sites.RecoverAfterFail | src/Sites/SiteManager.cs:87-105 | a failure then a recovery leaves the site Stable since the recovery time, with no locks and the same layout; unreplicated copies are as before, replicated copies keep their value but are unreadable |
| SiteManager.Initial | src/Sites/SiteManager.cs:18-37 | ten sites with ids 1..10 in order, all Stable, with no locks |
| SiteManager.InitialPlacement | src/Sites/SiteManager.cs:28-36 | site s starts with variable id iff 1 ≤ id ≤ 20 and (id is even or s = 1 + id mod 10) |
| SiteManager.PlacementRule | src/Sites/SiteManager.cs:28-36 | odd variables live at exactly site 1 + id mod 10, even ones at all ten; every copy starts at 10·id, replicated iff even |
| SiteManager.DataFromSound | src/Sites/SiteManager.cs:30-33 | every copy a site is built with is a fresh variable placed there by the rule |
| SiteManager.DataFromComplete | src/Sites/SiteManager.cs:30-33 | every variable the rule places at a site is among its copies |
| SiteManager.SitesWithVariable | src/Sites/SiteManager.cs:135-145 | exactly the sites holding the variable, filtered by the state when one is given |
| SiteManager.SitesWithVariableKeepsOrder | src/Sites/SiteManager.cs:135-145 | the result keeps directory order |
| SiteManager.Holders | src/Sites/SiteManager.cs:135-145 | the positions of the sites holding the variable in the given state, increasing |
| SiteManager.HoldersPickSitesWithVariable | src/Sites/SiteManager.cs:135-145 | the positions pick out exactly the list `SitesWithVariable` returns |
| SiteManager.Fail | src/Sites/SiteManager.cs:76-88 | an error iff the id is not a Stable site; otherwise only that site changes, and it is failed |
| SiteManager.Recover | src/Sites/SiteManager.cs:94-106 | an error iff the id is not a failed site; otherwise only that site changes, and it is Stable since now |
| SiteManager.Dump | src/Sites/SiteManager.cs:116-127 | the dump lists only site ids in 1..10 |
| SiteManager.DumpSpec | src/Sites/SiteManager.cs:116-127 | with a variable: exactly the sites holding it; with only a site id: just that site; otherwise every site |
| SiteManager.Execute | src/Sites/SiteManager.cs:50-70 | site operations keep ten well-numbered sites with the same layouts and valid lock tables; only the four listed errors occur |
| SiteManager.Apply | src/Sites/SiteManager.cs:54-68 | one site operation keeps the same directory properties |
| Database.Start | src/Program.cs:21-23 | the engine starts at time 0 with the initial directory and no transactions |
| Database.ReleaseLocks | src/Transactions/TransactionManager.cs:276-284 | locks are cleared exactly at the visited Stable sites; other sites are untouched |
| Database.CommitWrites | src/Transactions/TransactionManager.cs:260-269 | at exactly the visited Stable sites, pending writes are committed and locks cleared |
| Database.ReleaseFreesVisitedSites | src/Transactions/TransactionManager.cs:260-284 | after commit or abort the transaction holds no lock at a visited Stable site |
| Database.EvolvesKeepsUnique | src/Transactions/TransactionManager.cs:107 | a step within a tick renames nothing, so unique names stay unique |
| Database.IndexOf | src/Transactions/TransactionManager.cs:107 | the first transaction with exactly this name, or none iff no name matches |
| Graphs.NewNode | src/Deadlocks/Node.cs:13-18 | a new node carries the vertex and no neighbours |
| Graphs.ContainsIffNeighbor | src/Deadlocks/Node.cs:28-31 | `Contains` holds iff the transaction is in the neighbour list |
| Graphs.Empty | src/Deadlocks/Graph.cs:13-16 | a new graph has no nodes |
| Graphs.FindNode | src/Deadlocks/Graph.cs:61 | the first node of the vertex, or none iff the vertex has no node |
| Graphs.GetNode | src/Deadlocks/Graph.cs:59-70 | an existing node is returned with the graph unchanged; otherwise exactly one node is appended. Well-formedness is kept |
| Graphs.GetNodeKeepsEdges | src/Deadlocks/Graph.cs:59-70 | getting a node adds the vertex and no edge |
| Graphs.AddNeighbors | src/Deadlocks/Graph.cs:76-85 | only absent neighbours are appended: old list kept as a prefix, union of both, no duplicates if there were none |
| Graphs.Add | src/Deadlocks/Graph.cs:28-36 | the vertex is added; without neighbours no edge changes; with them, its neighbours become the union; other vertices are untouched |
| Graphs.ExtendNode | src/Deadlocks/Graph.cs:34 | extending a vertex's node changes only that vertex's neighbours, to the union |
| Graphs.RemoveDeletesVertex | src/Deadlocks/Graph.cs:43-52 | removal deletes the vertex's node and its first occurrence from every neighbour list; nothing else changes; well-formedness and closure are kept |
| Graphs.RemoveShrinks | src/Deadlocks/Graph.cs:43-52 | removing a vertex present in the graph strictly shrinks it |
| Graphs.Remove | src/Deadlocks/Graph.cs:43-52 | removal drops exactly one node when the vertex has one and none otherwise (its full effect is `RemoveDeletesVertex`) |
| Graphs.RemoveStaysInside | src/Deadlocks/Graph.cs:43-52 | removal introduces no new names |
| DeadlockManager.AddWaits | src/Deadlocks/DeadlockManager.cs:53-59 | the waiting transaction's edges become exactly the transactions blocking it at the given sites; other nodes are untouched |
| DeadlockManager.AddTransactionSpec | src/Deadlocks/DeadlockManager.cs:46-59 | an active transaction gets a node unless it waits on a variable with no Stable copy; its edges are exactly the transactions it waits on |
| DeadlockManager.HoldersIffInGraph | src/Deadlocks/DeadlockManager.cs:54-58 | a waiting transaction gets a node iff some Stable site holds its buffered variable |
| DeadlockManager.WaitEdge | src/Deadlocks/DeadlockManager.cs:55-58 | an edge to x exists iff x holds a lock on the buffered variable at a Stable holder |
| DeadlockManager.BuildFromSpec | src/Deadlocks/DeadlockManager.cs:43-63 | the graph of a list of transactions: nodes and edges as above, one per transaction |
| DeadlockManager.ConstructGraph | src/Deadlocks/DeadlockManager.cs:43-63 | over uniquely named transactions the graph is well formed and each transaction's edges are exactly the ones it waits on (vertices and the remaining nodes: `ConstructGraphSpec`) |
| DeadlockManager.ConstructGraphSpec | src/Deadlocks/DeadlockManager.cs:43-63 | the waits-for graph is well formed; its vertices are exactly the transactions given a node and its edges exactly the waits-on relation |
| DeadlockManager.Search | src/Deadlocks/DeadlockManager.cs:94-112 | the search terminates, and the visited list only grows, within the graph's names |
| DeadlockManager.SearchDistinct | src/Deadlocks/DeadlockManager.cs:94-112 | the visited list never repeats a name |
| DeadlockManager.SearchCovers | src/Deadlocks/DeadlockManager.cs:94-112 | a search that finds nothing has visited every neighbour it was given |
| DeadlockManager.SearchForward | src/Deadlocks/DeadlockManager.cs:94-112 | after a search that finds nothing, every neighbour of a newly visited name was visited after it |
| DeadlockManager.SearchFindsCycle | src/Deadlocks/DeadlockManager.cs:94-112 | a search from any vertex on a cycle reports true |
| DeadlockManager.GetCycle | src/Deadlocks/DeadlockManager.cs:72-86 | a reported set starts at a vertex of the graph and holds only names of the graph |
| DeadlockManager.GetCycleComplete | src/Deadlocks/DeadlockManager.cs:72-86 | if no set is reported, the graph has no cycle |
| DeadlockManager.RankedAcyclic | src/Deadlocks/DeadlockManager.cs:72-86 | a graph whose edges all go down a ranking has no cycle |
| DeadlockManager.DiamondAcyclic | src/Deadlocks/DeadlockManager.cs:72-86 | the diamond A→B, A→C, B→D, C→D has no cycle |
| DeadlockManager.DiamondIsReported | src/Deadlocks/DeadlockManager.cs:79-81 | yet the search reports {A, B, D, C} for it, because `visited` is never unwound |
| DeadlockManager.Youngest | src/Deadlocks/DeadlockManager.cs:120 | the victim is in the set, has the largest start time, and is the first such in the set's order |
| DeadlockManager.YoungestIndex | src/Deadlocks/DeadlockManager.cs:120 | the victim's position has the largest start time, and no earlier position ties it |
| DeadlockManager.Kill | src/Deadlocks/DeadlockManager.cs:118-131 | the victim is Aborted with end time now; its locks are released at its visited Stable sites; a notice is added; no other transaction changes |
| DeadlockManager.KillLoop | src/Deadlocks/DeadlockManager.cs:32-36 | the kill loop terminates, and the engine state only evolves |
| DeadlockManager.KillLoopLeavesNoCycle | src/Deadlocks/DeadlockManager.cs:32-36 | the loop ends with no cycle reported, and with a graph that has no cycle |
| DeadlockManager.KillLoopBound | src/Deadlocks/DeadlockManager.cs:32-36 | each victim is a name of the graph; on a closed graph, there are at most as many victims as nodes |
| DeadlockManager.DetectDeadlocks | src/Deadlocks/DeadlockManager.cs:27-37 | detection only evolves the engine state: same transactions and sites, valid lock tables, notices appended |
| TransactionManager.FirstGrant | src/Transactions/TransactionManager.cs:144-154 | the first site in the list that grants the read, or none iff none grants |
| TransactionManager.FirstGrantSpec | src/Transactions/TransactionManager.cs:136-156 | the search finds the first Stable holder, in site order, that grants a read lock, or reports that none does |
| TransactionManager.FirstGranterUnique | src/Transactions/TransactionManager.cs:144-154 | there is at most one first granter |
| TransactionManager.Serve | src/Transactions/TransactionManager.cs:146-152 | a served read records the visit, clears the buffer and leaves the transaction Running |
| TransactionManager.ReadVariableSpec | src/Transactions/TransactionManager.cs:136-156 | no Stable holder: buffered Waiting; no holder grants: buffered Blocked; otherwise served by the first granter |
| TransactionManager.ReadVariable | src/Transactions/TransactionManager.cs:131-157 | a read keeps the time, the sites' layouts and valid lock tables, each transaction's identity and start, only adds visits and notices, and keeps every buffer well formed (its outcomes: `ReadVariableSpec`) |
| TransactionManager.ReadCases | src/Transactions/TransactionManager.cs:131-157 | a read ends in exactly one of those three outcomes |
| TransactionManager.ReadOnlyReadTakesNoLock | src/Locks/LockManager.cs:41-44 | a read-only transaction's read leaves every lock table unchanged |
| TransactionManager.LockAllGranted | src/Transactions/TransactionManager.cs:183-195 | the lock loop reports success iff every listed site grants the write lock |
| TransactionManager.LockAllSites | src/Transactions/TransactionManager.cs:183-193 | each listed site is asked once and the other sites are untouched |
| TransactionManager.LockAllVisitTimes | src/Transactions/TransactionManager.cs:191 | earlier visits keep their times; new visits are stamped now |
| TransactionManager.LockAllVisitKeys | src/Transactions/TransactionManager.cs:183-193 | the visited sites gain exactly the granting sites |
| TransactionManager.LockAll | src/Transactions/TransactionManager.cs:183-193 | the lock loop keeps the number of sites and changes nothing of the transaction but its visited sites |
| TransactionManager.WriteAll | src/Transactions/TransactionManager.cs:198-201 | the value is written at exactly the listed sites; no lock or state changes |
| TransactionManager.LockPhase | src/Transactions/TransactionManager.cs:174-193 | success iff every Stable holder grants; each Stable holder's table is what its write request left; data is untouched |
| TransactionManager.LandWrite | src/Transactions/TransactionManager.cs:195-202 | a write that got all locks clears the buffer and leaves the transaction Running |
| TransactionManager.LandWriteSites | src/Transactions/TransactionManager.cs:195-202 | the value is written at every Stable holder, which keeps the lock it granted |
| TransactionManager.RefuseWrite | src/Transactions/TransactionManager.cs:203-206 | a denied write changes no data and buffers the operation as Blocked, but the locks granted in the attempt stay held and those sites stay visited |
| TransactionManager.WriteVariable | src/Transactions/TransactionManager.cs:168-207 | an error iff the write value is missing; otherwise the engine state only evolves |
| TransactionManager.WriteWaitsWithoutHolder | src/Transactions/TransactionManager.cs:175-181 | with no Stable holder the write is buffered Waiting |
| TransactionManager.WriteLandsWhenAllGrant | src/Transactions/TransactionManager.cs:183-202 | when every Stable holder grants, the write lands |
| TransactionManager.WriteRefusedWhenOneDenies | src/Transactions/TransactionManager.cs:183-206 | when some Stable holder denies, the write is refused |
| TransactionManager.LandedWriteHoldsLocks | src/Transactions/TransactionManager.cs:183-202 | when every Stable holder grants, the lock phase succeeds, and after the landed write every Stable holder's lock table gives the writer a write lock |
| TransactionManager.WriteAllLanded | src/Transactions/TransactionManager.cs:198-201 | writing at the Stable holders stores the value at each of them |
| TransactionManager.InsertByWait | src/Transactions/TransactionManager.cs:61-63 | stable insertion by wait time: the result is in wait order and holds the old positions plus the new one |
| TransactionManager.WaitOrder | src/Transactions/TransactionManager.cs:61-63 | exactly the waiting transactions, ordered by wait time, ties in table order |
| TransactionManager.WaitOrderUnique | src/Transactions/TransactionManager.cs:61-63 | two wait orders of the same transactions are equal |
| TransactionManager.Commit | src/Transactions/TransactionManager.cs:260-269 | the transaction is Committed; writes are committed and locks released at its visited Stable sites; a notice is added |
| TransactionManager.Abort | src/Transactions/TransactionManager.cs:276-284 | the transaction is Aborted; locks are released at its visited Stable sites; a notice is added |
| TransactionManager.CommitPublishes | src/Transactions/TransactionManager.cs:260-269 | at a visited Stable site, commit publishes every write-locked pending value and releases every lock |
| TransactionManager.AbortKeepsValues | src/Transactions/TransactionManager.cs:276-284 | abort changes no data anywhere and releases the locks at visited Stable sites |
| TransactionManager.Finish | src/Transactions/TransactionManager.cs:228-239 | the end time is now and the buffer is cleared; the transaction commits iff `CanCommit` holds, else aborts; nothing else changes |
| TransactionManager.FinishCommitsIffSitesStayedUp | src/Transactions/TransactionManager.cs:248-253 | a read-write transaction commits iff every visited site is Stable and has been up since its first visit |
| TransactionManager.CanCommitNeedsSitesUp | src/Transactions/TransactionManager.cs:248-253 | a read-only transaction can always commit; a read-write one cannot once a visited site is down or came back up after its first visit there |
| TransactionManager.ReadOnlyAlwaysCommits | src/Transactions/TransactionManager.cs:248-253 | a read-only transaction that ends always commits |
| TransactionManager.EndTransaction | src/Transactions/TransactionManager.cs:218-241 | a read-only transaction with a visited site that is down is deferred as Waiting; otherwise it finishes and the waiters are rerun |
| TransactionManager.RunBuffered | src/Transactions/TransactionManager.cs:67 | rerunning a transaction with an empty buffer fails as written and is skipped once corrected |
| TransactionManager.Dispatch | src/Transactions/TransactionManager.cs:76-97 | running one buffered read, write or end only evolves the state and keeps buffers well formed; with the corrected rerun and a write that has its value it succeeds; it fails only on a missing write value or, as written, an empty buffer |
| TransactionManager.RerunList | src/Transactions/TransactionManager.cs:64-67 | rerunning the snapshot list in order only evolves the state; with the corrected rerun it succeeds on well-formed buffers; it fails only on a missing write value or, as written, an empty buffer |
| TransactionManager.Rerun | src/Transactions/TransactionManager.cs:59-69 | reruns terminate; the corrected rerun never fails on well-formed buffers; errors are only a missing value or, as written, an empty buffer |
| TransactionManager.FindLower | src/Transactions/TransactionManager.cs:311 | the first transaction whose name matches ignoring case, or none iff no name does |
| TransactionManager.LookupIgnoresCase | src/Transactions/TransactionManager.cs:311 | names that agree ignoring case find the same transaction |
| TransactionManager.GetTransaction | src/Transactions/TransactionManager.cs:309-330 | unknown iff no name matches; a found transaction is Running afterwards, else an error; state changes only when it was waiting |
| TransactionManager.Settle | src/Transactions/TransactionManager.cs:318-322 | a waiting transaction triggers deadlock detection and a rerun; otherwise nothing changes |
| TransactionManager.BeginTransaction | src/Transactions/TransactionManager.cs:105-120 | an error iff the exact name exists; otherwise one transaction is appended with the clock as start time, read-only iff BeginRO, no visits |
| TransactionManager.CaseShadowedBegin | src/Transactions/TransactionManager.cs:107 | "t1" can begin beside "T1", and lookups of "t1" then reach "T1" |
| TransactionManager.RunOperation | src/Transactions/TransactionManager.cs:77-98 | a site operation is unsupported; any other only grows the engine state and keeps names unique |
| TransactionManager.RunOnTransaction | src/Transactions/TransactionManager.cs:77-98 | an operation for an unknown name is an error; otherwise the same guarantees |
| TransactionManager.Execute | src/Transactions/TransactionManager.cs:46-54 | reruns then the line's operations only grow the engine state, keep names unique and keep buffers well formed |
| TransactionManager.RunAll | src/Transactions/TransactionManager.cs:50-53 | the operations of a line run in order with the same guarantees |
| Text.TrimStartSpec | src/Operations/InputParser.cs:90 | trimming the front drops exactly the leading white space |
| Text.TrimEndSpec | src/Operations/InputParser.cs:90 | trimming the end drops exactly the trailing white space |
| Text.TrimSpec | src/Operations/InputParser.cs:90 | a trimmed string is empty or starts and ends with non-white characters |
| Text.BlankIffAllWhite | src/Operations/InputParser.cs:73 | a string is blank iff it is all white space |
| Text.LowerAt | src/Operations/InputParser.cs:132 | lower-casing works character by character |
| Text.SplitJoin | src/Operations/InputParser.cs:72 | joining the pieces of a split on the separator gives back the line |
| Text.JoinSplit | src/Operations/InputParser.cs:72 | splitting joined pieces that avoid the separators gives back the pieces |
| Text.NonBlank | src/Operations/InputParser.cs:73 | exactly the non-blank pieces remain |
| Text.IntRoundTrip | src/Operations/InputParser.cs:193 | parsing an integer's decimal rendering gives it back |
| InputParser.TryParseInt | src/Operations/InputParser.cs:193 | a decimal in the 32-bit range parses; anything else does not |
| InputParser.IntReadBack | src/Operations/InputParser.cs:193 | every 32-bit integer's rendering parses back to it |
| InputParser.GetOperationTypeSpec | src/Operations/InputParser.cs:130-155 | the kind is t iff the trimmed, lower-cased keyword is one of t's spellings; anything else is an error |
| InputParser.KindOfSpec | src/Operations/InputParser.cs:132-153 | the keyword table maps exactly t's spellings to t |
| InputParser.GetTransaction | src/Operations/InputParser.cs:157-173 | the trimmed first field for transaction operations, empty for site operations |
| InputParser.GetSite | src/Operations/InputParser.cs:175-202 | Fail/Recover need a site in 1..10; a Dump integer outside 1..10 is an error; a Dump non-integer gives no site; others give none |
| InputParser.GetValidVariableSpec | src/Operations/InputParser.cs:225-241 | accepted iff the trimmed, lower-cased text is "x" followed by an integer in 1..20, and then it is the result |
| InputParser.ValidVariable | src/Operations/InputParser.cs:225-241 | every well-formed variable name is accepted unchanged and is not an integer |
| InputParser.GetVariable | src/Operations/InputParser.cs:204-223 | Read/Write need a second field, which is validated; Dump with an integer has no variable, else it is validated; others have none |
| InputParser.GetWriteValue | src/Operations/InputParser.cs:243-256 | only Write carries a value; a Write with fewer than three fields, or a bad number, is an error |
| InputParser.ParseOperation | src/Operations/InputParser.cs:88-128 | empty text is an error; a non-Dump without data is an error; the fields come from the field readers |
| InputParser.ParseOperationOk | src/Operations/InputParser.cs:88-128 | when the keyword and every field reader succeed, parsing yields exactly that operation |
| InputParser.ParseEach | src/Operations/InputParser.cs:76-79 | all pieces parse in order, or the error is the first failing piece's |
| InputParser.ParseLine | src/Operations/InputParser.cs:70-82 | one operation per non-blank ';'-piece, in order, or the first piece's error |
| InputParser.RenderParses | src/Operations/InputParser.cs:88-128 | parsing the canonical text of any well-formed operation gives it back |
| InputParser.RenderLineParses | src/Operations/InputParser.cs:70-82 | parsing a rendered line of well-formed operations gives them back |
| Driver.SiteOps | src/Program.cs:31 | only site operations are sent to the site manager |
| Driver.TransactionOps | src/Program.cs:32 | only the other operations are sent to the transaction manager |
| Driver.OpsPartition | src/Program.cs:31-32 | the two filters split the line: together they hold every operation exactly once |
| Driver.SiteOpsOfSiteOps | src/Program.cs:31-32 | a line of site operations goes entirely to the site manager |
| Driver.StartInvariant | src/Program.cs:21-23 | the initial engine satisfies the invariant: well-numbered directory, valid lock tables, unique names, well-formed buffers |
| Driver.Step | src/Program.cs:30-32 | one tick advances the time by one, keeps the invariant and only appends notices, with either rerun; with the corrected rerun it never hits an empty buffer from a good state (as written it can, see Findings) |
| Driver.Run | src/Program.cs:28-33 | n lines advance the time by n and keep the invariant, with either rerun; with the corrected rerun no line hits an empty buffer |
| Driver.RunFromStart | src/Program.cs:21-33 | from the start, any script keeps the invariant and its clock counts the lines, with either rerun; with the corrected rerun it never hits an empty buffer |
| RerunFinding.EndCommitsT2 | src/Transactions/TransactionManager.cs:228-239 | in the scenario, `end(T2)` commits T2 and leaves T1 the only waiter |
| RerunFinding.InnerPassServesT1 | src/Transactions/TransactionManager.cs:240 | the rerun inside `end(T2)` serves T1's read and empties its buffer |
| RerunFinding.NestedRerunEmptiesBuffer | src/Transactions/TransactionManager.cs:59-69 | as written, the outer rerun then reruns T1 with an empty buffer |
| RerunFinding.CorrectedRerunSkipsServed | src/Transactions/TransactionManager.cs:59-69 | corrected, the outer rerun skips T1: T2 committed, T1 served |

## Left out

- Input and output: `Program`'s file and console reading, `InputParser`'s constructor and `GetLine` (comment skipping, the `exit` line), and `Logger`'s colouring and `Environment.Exit`. A fatal `Logger.Fail` is an `Err` result, and a printed line is at most an appended notice.
- The text of the notices and of `dump` (`Site.Dump`, `Transaction.ToString`, `Clock.ToString` inside messages): only which sites a dump covers is modelled.
- `Site.ReadData` and the value a read returns: `src/Sites/Site.cs` defines no `ReadData` and keeps no version history, so a read records only its lock, its visit and a notice.
- `src/Sites/Site.cs` defines no `Fail`, `Recover`, `CommitValue`, `WriteData`, `ClearLocks` or `GetBlockingTransactions`, and `src/Transactions/Transaction.cs` defines no `GetStableSites` (called at `DeadlockManager.cs` line 125). They are modelled from their call sites. Fail drops the site's locks and makes replicated copies unreadable. Recover makes the site Stable and records the time. CommitValue publishes write-locked pending values. `GetStableSites` is read as the visited sites that are Stable, like the transaction manager's private method of that name (`TransactionManager.cs` lines 352-357).
- The `Variable(id, time)` constructor called by the site manager: `src/Variables/Variable.cs` has no two-argument constructor, so the model uses the one-argument constructor's defaults.
- `Graph.GetNode` called on a neighbour with no node appends a node while `HasCycle` enumerates the node list, which throws in .NET. The model treats such a neighbour as a node with no edges.
- .NET number parsing beyond the default integer style (culture-specific signs and digits, other number styles): an integer is optional surrounding white space, an optional '+' or '-', then decimal digits. `TryParse` rejects values outside the 32-bit range, and the model rejects them too. `int.Parse` of an oversized write value throws an exception that the parser does not catch; here it is the `WriteValueOverflow` error.
- Lower-casing covers ASCII letters only, and white space is the ASCII set (space, tab, line feed, carriage return, vertical tab, form feed).
- The 32-bit range of `Clock.Time`: the clock is an unbounded natural number.
- SiteManager.Dump: its own contract states only that the listed ids are sites; the three selection cases are stated by `SiteManager.DumpSpec`.
- TransactionManager.WriteVariable: its own contract states the error case and that the state only evolves; the Waiting, landed and refused outcomes are stated by `WriteWaitsWithoutHolder`, `WriteLandsWhenAllGrant` and `WriteRefusedWhenOneDenies`.
- DeadlockManager.GetCycle: it is not claimed that the returned set is a cycle, since it need not be (`DiamondIsReported`); completeness is `GetCycleComplete`.

## Findings

| source | as written | input that shows it | evidently intended | confidence | as-written member | corrected member |
|---|---|---|---|---|---|---|
| src/Transactions/TransactionManager.cs:59-69 | `RerunTransactions` snapshots the waiting transactions and reruns each one's buffer. An `end` rerun inside the loop calls `RerunTransactions` again (line 240), which can serve a waiter the outer loop has not reached. The outer loop then reruns that transaction with a null buffer. | `begin(T1); beginRO(T2)` / `R(T2,x3)` / `fail(4)` / `end(T2)` / `R(T1,x3)` / `recover(4)`. At the last tick the outer rerun runs `end(T2)`; T2 commits, and the inner rerun serves T1's read. The outer loop then reaches T1, whose buffer is now empty. | a transaction served by a nested rerun is skipped by the outer one | not executed | RerunFinding.NestedRerunEmptiesBuffer | RerunFinding.CorrectedRerunSkipsServed |
