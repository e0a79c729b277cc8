/**
 * What the simulator reports: the fatal errors that `Logger.Fail` turns
 * into a process exit, and the notices `Logger.Write` prints.
 */
module Outcomes {

  datatype Error =
    | TransactionExists(name: string)      // begin of a name already in the table
    | UnknownTransaction(name: string)     // an operation for a name not in the table
    | NotRunning(name: string)             // an operation for a transaction that is not Running
    | SiteNotStable(site: int)             // fail of a site that is not Stable
    | SiteNotFailed(site: int)             // recover of a site that is not failed
    | UnsupportedOperation                 // a site operation sent to the transaction manager or the reverse
    | MissingSite                          // `(int) operation.Site` on a null site
    | MissingWriteValue                    // `(int) operation.WriteValue` on a null value
    | EmptyBuffer(name: string)            // a rerun of a transaction whose buffer is null

  datatype Event =
    | ReadEvent(transaction: string, variable: string, site: int)
    | CommitEvent(transaction: string)
    | AbortEvent(transaction: string)
    | DeadlockAbortEvent(transaction: string)
    | DumpEvent(sites: seq<int>)
}
