/**
 * A transaction record and its small status state machine
 * (trans/transaction.py).
 */
module Transactions {

  /** The status values a transaction may take, in the order the class lists them. */
  const AllStatus: seq<string> := ["RUNNING", "BLOCKED", "ABORTED", "COMMITTED"]

  /** The kind of an operation, which is also the mode of the lock it takes:
      "R" (shared) or "W" (exclusive). */
  datatype LockMode = R | W

  /** The operation a transaction is currently attempting: its kind and the
      number (1..20) of the variable it targets. */
  datatype Operation = Operation(opType: LockMode, target: int)

  class Transaction {
    var transId: string
    var transType: string      // "RW" or "RO"
    var status: string
    var time: int              // logical start time
    var allStatus: seq<string>
    // The three fields below are read by a site but are not set by the
    // transaction class itself; code outside this model assigns them.
    var op: Operation
    var ifAbort: bool
    var endTime: int

    /** The status is always one of the allowed values, and the allowed
        values never change. */
    ghost predicate Valid()
      reads this
    {
      allStatus == AllStatus && status in allStatus
    }

    /** A new transaction is RUNNING and records its id, kind and start time. */
    constructor (id: string, transType: string, time: int)
      ensures Valid()
      ensures transId == id && this.transType == transType && this.time == time
      ensures status == "RUNNING"
      ensures op == Operation(R, 0) && !ifAbort && endTime == 0
    {
      transId := id;
      this.transType := transType;
      status := "RUNNING";
      this.time := time;
      allStatus := AllStatus;
      op := Operation(R, 0);
      ifAbort := false;
      endTime := 0;
    }

    /** The current status, which for a valid transaction is an allowed value. */
    method GetStatus() returns (s: string)
      ensures s == status
      ensures Valid() ==> s in AllStatus
    {
      s := status;
    }

    /** Moves to `newStatus` when it is an allowed value and otherwise leaves
        the status alone; no other field changes. */
    method SetStatus(newStatus: string)
      modifies this`status
      ensures status == if newStatus in allStatus then newStatus else old(status)
      ensures old(Valid()) ==> Valid()
      ensures old(Valid()) ==> (status == newStatus <==> newStatus in AllStatus || newStatus == old(status))
    {
      if newStatus in allStatus {
        status := newStatus;
      }
    }
  }
}
