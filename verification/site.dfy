/**
 * One site of the replicated store (sites/site.py): a 20-slot array of
 * committed values, a lock table, per-transaction write buffers and a
 * timestamped history of snapshots of the committed array.
 */
module Sites {
  import opened Wrappers
  import opened Transactions

  /** One lock-table entry: the mode and the ids of the transactions holding it. */
  datatype LockEntry = LockEntry(mode: LockMode, holders: set<string>)

  /** Variable number -> lock entry. */
  type LockTable = map<int, LockEntry>
  /** Variable number -> ids queued for that variable, head first. */
  type WaitList = map<int, seq<string>>
  /** Transaction id -> ids it waits for (the wait-for edges). */
  type BlockList = map<string, set<string>>

  /** Python list indexing on a 20-slot list: a negative index counts back
      from the end. */
  function PyIndex(i: int): (k: nat)
    requires -20 <= i < 20
    ensures k < 20 && (k - i) % 20 == 0
  {
    if i < 0 then i + 20 else i
  }

  /** The lock table invariant: every entry has a holder, and an exclusive
      entry has exactly one. */
  ghost predicate LocksCompatible(table: LockTable) {
    forall v :: v in table ==>
      table[v].holders != {} && (table[v].mode == W ==> |table[v].holders| == 1)
  }

  /** Every transaction id holding a lock on one of the variables in `vars`. */
  function HoldersOf(table: LockTable, vars: set<int>): set<string> {
    set v, t | v in vars && v in table && t in table[v].holders :: t
  }

  /** Every transaction id holding some lock in the table. */
  function AllHolders(table: LockTable): set<string> {
    HoldersOf(table, table.Keys)
  }

  /** The initial content of slot `k` (variable x_{k+1}) of site `id`, as the
      constructor lays it out: every even variable x_i holds 10*i; an even
      site id also writes 10*(id-1) at index id-2 and 10*(id+9) at index
      id+8, with Python's wrap-around for a negative index. */
  function InitialSlot(id: int, k: nat): (v: Option<int>)
    requires k < 20
    requires id % 2 != 0 || -18 <= id <= 11
    ensures k % 2 == 1 ==> v == Some(10 * (k + 1))
    ensures id % 2 != 0 && k % 2 == 0 ==> v == None
    ensures v.Some? ==> v.value % 10 == 0
  {
    if k % 2 == 1 then Some(10 * (k + 1))
    else if id % 2 == 0 && k == PyIndex(id - 2 + 10) then Some((id + 10 - 1) * 10)
    else if id % 2 == 0 && k == PyIndex(id - 2) then Some((id - 1) * 10)
    else None
  }

  /** For the sites 1..10 the layout is the placement rule of the store:
      even variables at every site, odd x_k only at site 1 + k mod 10, and
      each stored x_k starts at 10*k. */
  lemma InitialPlacement(id: int, x: int)
    requires 1 <= id <= 10 && 1 <= x <= 20
    ensures InitialSlot(id, x - 1) ==
      if x % 2 == 0 || id == 1 + x % 10 then Some(10 * x) else None
  {
  }

  class Site {
    var siteId: int
    var status: string                           // "ON" or "OFF"
    var version: int                             // never read
    var variable: array<Option<int>>             // slot k holds x_{k+1}
    var lockTable: LockTable
    var buffer: map<string, map<int, int>>       // id -> (variable -> value)
    var preVersion: map<int, seq<Option<int>>>   // commit time -> snapshot

    ghost predicate Valid()
      reads this
    {
      && variable.Length == 20
      && (forall id, x :: id in buffer && x in buffer[id] ==> 1 <= x <= 20)
      && LocksCompatible(lockTable)
    }

    /** A new site: ON, no locks, no buffers, the initial layout in its
        array and a copy of it recorded at time 0. */
    constructor (id: int)
      requires id % 2 != 0 || -18 <= id <= 11
      ensures Valid() && fresh(variable)
      ensures siteId == id && status == "ON" && version == 0
      ensures lockTable == map[] && buffer == map[]
      ensures forall k :: 0 <= k < 20 ==> variable[k] == InitialSlot(id, k)
      ensures 1 <= id <= 10 ==> forall x :: 1 <= x <= 20 ==>
        variable[x - 1] == if x % 2 == 0 || id == 1 + x % 10 then Some(10 * x) else None
      ensures preVersion == map[0 := variable[..]]
    {
      siteId := id;
      status := "ON";
      version := 0;
      var slots := new Option<int>[20](_ => None);
      lockTable := map[];
      buffer := map[];
      var i := 2;
      while i < 21
        invariant 2 <= i <= 22 && i % 2 == 0
        invariant forall k :: 0 <= k < 20 ==>
          slots[k] == if k % 2 == 1 && k < i - 1 then Some(10 * (k + 1)) else None
      {
        slots[i - 1] := Some(10 * i);
        i := i + 2;
      }
      if id % 2 == 0 {
        slots[PyIndex(id - 2)] := Some((id - 1) * 10);
        slots[PyIndex(id - 2 + 10)] := Some((id + 10 - 1) * 10);
      }
      forall x | 1 <= x <= 20 && 1 <= id <= 10
        ensures slots[x - 1] == if x % 2 == 0 || id == 1 + x % 10 then Some(10 * x) else None
      {
        InitialPlacement(id, x);
      }
      variable := slots;
      preVersion := map[0 := slots[..]];
    }

    /** The committed-value array itself (not a copy). */
    method GetVariable() returns (values: array<Option<int>>)
      requires Valid()
      ensures values == variable && values.Length == 20
    {
      values := variable;
    }

    /** Whether `t` may take the lock its current operation asks for. An
        unlocked variable is granted unless others are queued for it and `t`
        is not; a read-locked variable grants reads only while nobody is
        queued, and never a write (there is no promotion); a write-locked
        variable grants only a write by a holder. */
    function CheckLock(t: Transaction, waitList: WaitList): (granted: bool)
      reads this, t
      ensures granted && t.op.target in lockTable ==>
        t.op.opType == lockTable[t.op.target].mode
        && (t.op.opType == W ==> t.transId in lockTable[t.op.target].holders)
    {
      var x := t.op.target;
      if x !in lockTable then
        !(x in waitList && |waitList[x]| != 0 && t.transId !in waitList[x])
      else if lockTable[x].mode == R then
        t.op.opType == R && !(x in waitList && |waitList[x]| != 0)
      else
        t.transId in lockTable[x].holders && t.op.opType == W
    }

    /** `check_lock` as the code writes its write-locked branch: it asks
        whether the transaction object is among the holders, which are id
        strings, so the answer there is always no. */
    function CheckLockAsWritten(t: Transaction, waitList: WaitList): (granted: bool)
      reads this, t
      ensures t.op.target in lockTable && lockTable[t.op.target].mode == W ==> !granted
      ensures !(t.op.target in lockTable && lockTable[t.op.target].mode == W) ==>
        granted == CheckLock(t, waitList)
    {
      var x := t.op.target;
      if x in lockTable && lockTable[x].mode == W then false
      else CheckLock(t, waitList)
    }

    /** Tries to take the lock for `t`'s current operation. On success the
        holder set gains `t` (a new entry takes the requested mode) and, if
        `t` is queued for the variable, the queue loses its head. On failure
        the lock table is unchanged, `t` joins the tail of an existing queue
        if absent, and `t` is recorded as waiting for every current holder.
        The failure path reads the variable's entry, so an unlocked variable
        must not be refused. */
    method Lock(t: Transaction, waitList: WaitList, blockList: BlockList)
      returns (ok: bool, newWait: WaitList, newBlock: BlockList)
      requires Valid()
      requires t.op.target in lockTable || CheckLock(t, waitList)
      modifies this`lockTable
      ensures Valid()
      ensures ok == old(CheckLock(t, waitList))
      ensures LockOutcome(ok, t, old(lockTable), lockTable, waitList, newWait, blockList, newBlock)
      ensures ok ==> t.op.target in lockTable && t.transId in lockTable[t.op.target].holders
      ensures !ok ==> t.transId in newBlock && lockTable[t.op.target].holders <= newBlock[t.transId]
    {
      ok := CheckLock(t, waitList);
      newWait, newBlock := Apply(t, ok, waitList, blockList);
    }

    /** `lock` as the code is written: it decides with `CheckLockAsWritten`,
        so the holder of a write lock who asks to write again is refused,
        queued and recorded as waiting for itself. */
    method LockAsWritten(t: Transaction, waitList: WaitList, blockList: BlockList)
      returns (ok: bool, newWait: WaitList, newBlock: BlockList)
      requires Valid()
      requires t.op.target in lockTable || CheckLockAsWritten(t, waitList)
      modifies this`lockTable
      ensures Valid()
      ensures ok == old(CheckLockAsWritten(t, waitList))
      ensures LockOutcome(ok, t, old(lockTable), lockTable, waitList, newWait, blockList, newBlock)
      ensures var x, id := t.op.target, t.transId;
        x in old(lockTable) && old(lockTable)[x].mode == W && id in old(lockTable)[x].holders ==>
          && !ok && lockTable == old(lockTable)
          && id in newBlock && id in newBlock[id]
    {
      ok := CheckLockAsWritten(t, waitList);
      newWait, newBlock := Apply(t, ok, waitList, blockList);
    }

    /** Carries out the decision `ok` of `lock` (sites/site.py:84-107). A
        grant must agree with the mode of an existing entry, and a write grant
        must go to a holder, so the lock table invariant is kept. */
    method Apply(t: Transaction, ok: bool, waitList: WaitList, blockList: BlockList)
      returns (newWait: WaitList, newBlock: BlockList)
      requires Valid()
      requires ok && t.op.target in lockTable ==>
        t.op.opType == lockTable[t.op.target].mode
        && (t.op.opType == W ==> t.transId in lockTable[t.op.target].holders)
      requires !ok ==> t.op.target in lockTable
      modifies this`lockTable
      ensures Valid()
      ensures LockOutcome(ok, t, old(lockTable), lockTable, waitList, newWait, blockList, newBlock)
    {
      var x, id := t.op.target, t.transId;
      newWait, newBlock := waitList, blockList;
      if ok {
        if x !in lockTable {
          lockTable := lockTable[x := LockEntry(t.op.opType, {id})];
        } else if id !in lockTable[x].holders {
          lockTable := lockTable[x := LockEntry(lockTable[x].mode, lockTable[x].holders + {id})];
        } else {
          assert lockTable[x].holders + {id} == lockTable[x].holders;
        }
        if x in newWait && id in newWait[x] {
          newWait := newWait[x := newWait[x][1..]];
        }
      } else {
        if x in newWait && id !in newWait[x] {
          newWait := newWait[x := newWait[x] + [id]];
        }
        if id in newBlock {
          newBlock := newBlock[id := newBlock[id] + lockTable[x].holders];
        } else {
          newBlock := newBlock[id := {} + lockTable[x].holders];
        }
      }
    }

    /** Takes the site down: status OFF, and the lock table is emptied. The
        result lists every id that held a lock, each once. Values, buffers
        and the version history are untouched. */
    method Failed() returns (transToAbort: seq<string>)
      requires Valid()
      modifies this`status, this`lockTable
      ensures Valid()
      ensures status == "OFF" && lockTable == map[]
      ensures forall id :: id in transToAbort <==> id in AllHolders(old(lockTable))
      ensures forall i, j :: 0 <= i < j < |transToAbort| ==> transToAbort[i] != transToAbort[j]
    {
      status := "OFF";
      transToAbort := [];
      var todo := lockTable.Keys;
      while todo != {}
        invariant status == "OFF" && lockTable == old(lockTable)
        invariant todo <= lockTable.Keys
        invariant forall id :: id in transToAbort <==> id in HoldersOf(lockTable, lockTable.Keys - todo)
        invariant forall i, j :: 0 <= i < j < |transToAbort| ==> transToAbort[i] != transToAbort[j]
        decreases todo
      {
        NonEmptyHasElement(todo);
        var x :| x in todo;
        var holders := lockTable[x].holders;
        ghost var before := transToAbort;
        while holders != {}
          invariant status == "OFF" && lockTable == old(lockTable)
          invariant holders <= lockTable[x].holders
          invariant forall id :: id in transToAbort <==>
            id in before || (id in lockTable[x].holders && id !in holders)
          invariant forall i, j :: 0 <= i < j < |transToAbort| ==> transToAbort[i] != transToAbort[j]
          decreases holders
        {
          var id :| id in holders;
          if id !in transToAbort {
            transToAbort := transToAbort + [id];
          }
          holders := holders - {id};
        }
        HoldersOfStep(lockTable, lockTable.Keys - todo, x);
        assert lockTable.Keys - (todo - {x}) == (lockTable.Keys - todo) + {x};
        todo := todo - {x};
      }
      lockTable := map[];
    }

    /** Brings the site back up; nothing else changes. */
    method Recovered()
      modifies this`status
      ensures status == "ON"
    {
      status := "ON";
    }

    /** Releases every lock `t` holds: `t` leaves every holder set, entries
        left without holders disappear and the others keep their holders.
        A transaction not flagged aborted is then committed at its end time.
        Finally its buffer is dropped. */
    method Unlock(t: Transaction)
      requires Valid()
      modifies this`lockTable, this`buffer, this`preVersion, variable
      ensures Valid()
      ensures forall x :: x in lockTable ==> t.transId !in lockTable[x].holders
      ensures forall x :: x in lockTable <==>
        x in old(lockTable) && old(lockTable)[x].holders - {t.transId} != {}
      ensures forall x :: x in lockTable ==>
        lockTable[x] == LockEntry(old(lockTable)[x].mode, old(lockTable)[x].holders - {t.transId})
      ensures buffer == old(buffer) - {t.transId}
      ensures t.ifAbort ==> variable[..] == old(variable[..]) && preVersion == old(preVersion)
      ensures !t.ifAbort ==> CommitEffect(old(buffer), t.transId, old(variable[..]), variable[..])
      ensures !t.ifAbort ==> preVersion == old(preVersion)[t.endTime := variable[..]]
    {
      var id := t.transId;
      var todo := lockTable.Keys;
      var emptied: set<int> := {};
      while todo != {}
        invariant buffer == old(buffer) && preVersion == old(preVersion)
        invariant variable[..] == old(variable[..])
        invariant todo <= old(lockTable).Keys && lockTable.Keys == old(lockTable).Keys
        invariant forall x :: x in lockTable ==>
          lockTable[x] == if x in todo then old(lockTable)[x]
                          else LockEntry(old(lockTable)[x].mode, old(lockTable)[x].holders - {id})
        invariant forall x :: x in emptied <==>
          x in old(lockTable) && x !in todo && old(lockTable)[x].holders - {id} == {}
        decreases todo
      {
        NonEmptyHasElement(todo);
        var x :| x in todo;
        if id in lockTable[x].holders {
          lockTable := lockTable[x := LockEntry(lockTable[x].mode, lockTable[x].holders - {id})];
          if |lockTable[x].holders| == 0 {
            emptied := emptied + {x};
          }
        }
        todo := todo - {x};
      }
      lockTable := lockTable - emptied;
      ReleaseKeepsCompatible(old(lockTable), lockTable, id);
      if !t.ifAbort {
        CommitTrans(id, t.endTime);
      }
      buffer := buffer - {id};
    }

    /** Copies every value `transId` buffered into its slot and records a
        snapshot of the resulting array at `time`. */
    method CommitTrans(transId: string, time: int)
      requires Valid()
      modifies this`preVersion, variable
      ensures Valid()
      ensures CommitEffect(buffer, transId, old(variable[..]), variable[..])
      ensures preVersion == old(preVersion)[time := variable[..]]
    {
      if transId in buffer {
        var writes := buffer[transId];
        var todo := writes.Keys;
        while todo != {}
          invariant preVersion == old(preVersion)
          invariant todo <= writes.Keys
          invariant forall k :: 0 <= k < 20 ==>
            variable[k] == if k + 1 in writes && k + 1 !in todo then Some(writes[k + 1]) else old(variable[k])
          decreases todo
        {
          NonEmptyHasElement(todo);
        var x :| x in todo;
          variable[x - 1] := Some(writes[x]);
          todo := todo - {x};
        }
      }
      preVersion := preVersion[time := variable[..]];
    }
  }

  /** The holder of the write lock on a variable asks to write it again: the
      corrected test grants the request, the test as written refuses it. */
  lemma WriteReentry(s: Site, t: Transaction, waitList: WaitList)
    requires t.op.opType == W && t.op.target in s.lockTable
    requires s.lockTable[t.op.target] == LockEntry(W, {t.transId})
    ensures s.CheckLock(t, waitList)
    ensures !s.CheckLockAsWritten(t, waitList)
  {
  }

  /** The effect of `lock` once it has decided `ok` for `t`'s operation on
      variable x: on success the holder set of x gains t's id (a new entry
      takes the requested mode), a queue for x holding the id loses its head,
      and the block table is unchanged. On failure x is locked, the lock
      table is unchanged, an existing queue for x gains the id at its tail if
      absent (no queue is created), and the id's block set gains every
      current holder of x. */
  ghost predicate LockOutcome(ok: bool, t: Transaction, before: LockTable, after: LockTable,
                              waitList: WaitList, newWait: WaitList,
                              blockList: BlockList, newBlock: BlockList)
    reads t
  {
    var x, id := t.op.target, t.transId;
    && (ok ==>
          && after == before[x := if x in before
                                  then LockEntry(before[x].mode, before[x].holders + {id})
                                  else LockEntry(t.op.opType, {id})]
          && newWait == (if x in waitList && id in waitList[x]
                         then waitList[x := waitList[x][1..]] else waitList)
          && newBlock == blockList)
    && (!ok ==>
          && x in before && after == before
          && newWait == (if x in waitList && id !in waitList[x]
                         then waitList[x := waitList[x] + [id]] else waitList)
          && newBlock == blockList[id := (if id in blockList then blockList[id] else {})
                                         + before[x].holders])
  }

  /** `after` is `before` with every value `id` buffered written into slot
      variable-1, and every other slot unchanged. */
  ghost predicate CommitEffect(buffer: map<string, map<int, int>>, id: string,
                               before: seq<Option<int>>, after: seq<Option<int>>)
  {
    && |after| == |before|
    && forall k :: 0 <= k < |before| ==>
         after[k] == if id in buffer && k + 1 in buffer[id] then Some(buffer[id][k + 1]) else before[k]
  }

  lemma NonEmptyHasElement(s: set<int>)
    requires s != {}
    ensures exists x :: x in s
  {
    if forall x :: x !in s {
      assert false;
    }
  }

  lemma SubsetCardinality(a: set<string>, b: set<string>)
    requires a <= b
    ensures |a| <= |b|
  {
    assert b == a + (b - a);
  }

  lemma HoldersOfStep(table: LockTable, done: set<int>, x: int)
    requires x in table
    ensures HoldersOf(table, done + {x}) == HoldersOf(table, done) + table[x].holders
  {
  }

  /** Removing one id from every holder set and dropping the entries left
      empty keeps the lock table invariant. */
  lemma ReleaseKeepsCompatible(before: LockTable, after: LockTable, id: string)
    requires LocksCompatible(before)
    requires forall x :: x in after <==> x in before && before[x].holders - {id} != {}
    requires forall x :: x in after ==>
      after[x] == LockEntry(before[x].mode, before[x].holders - {id})
    ensures LocksCompatible(after)
  {
    forall x | x in after && after[x].mode == W
      ensures |after[x].holders| == 1
    {
      var hs := before[x].holders;
      if id in hs {
        var y :| y in hs - {id};
        assert {id, y} <= hs && |{id, y}| == 2;
        SubsetCardinality({id, y}, hs);
        assert false;
      }
      assert hs - {id} == hs;
    }
  }
}
