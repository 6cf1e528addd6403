# A replicated key-value store with strict two-phase locking

This project models the core of a small distributed database simulator. The simulator has ten sites, each holding copies of twenty integer variables x1..x20:

- even variables are replicated at every site;
- odd variable x_k lives only at site 1 + k mod 10.

Transactions take shared (R) and exclusive (W) locks at the sites under strict two-phase locking. The transaction manager follows the "available copies" rule: a read goes to a site that is up, a failed site forgets its locks and aborts their holders, and a recovering site refreshes its replicated values from another site that is up. A small lexer turns input lines such as `W(T1, x2, 10); R(T2, x3)` into commands.

The model has five modules:

- `Wrappers` (wrappers.dfy): the `Option` type.
- `Transactions` (transaction.dfy): the transaction record (`Transaction` class) and its status state machine.
- `Sites` (site.dfy): one site as a `Site` class. It holds a 20-slot `array` of committed values, a lock table (`map` from variable to mode and holder set), per-transaction write buffers and a history of committed snapshots. Its methods update these in place, as the Python methods do:
  - the lock grant test `CheckLock`;
  - `Lock`;
  - `Failed` and `Recovered`;
  - `Unlock` and `CommitTrans`.
- `TransManager` (trans_manager.dfy): the `TransactionManager` class. It owns the 11-entry site list (entry 0 is a dummy site), the transaction list and the wait/block tables. Its operations are:
  - construction;
  - `FindTrans`;
  - `Fail`, which aborts the lock holders of a failed site;
  - `Recover`, which copies the even variables from a donor site;
  - the routing part of `read`.
- `Parser` (parser.dfy): `commandParser`. The loop is a method, specified by the function `ParseLine`. Python's `str.strip`, `str.split` and the anchored regular expression `([a-zA-Z0-9]+)\(([^)]*)\)` are written out as functions, each with its own contract.

Main invariants:

- `Site.Valid`: the array has 20 slots, buffered writes target variables 1..20, and every lock-table entry has a holder. A W entry has exactly one holder.
- `Transaction.Valid`: the status is one of RUNNING, BLOCKED, ABORTED, COMMITTED.
- `TransactionManager.Valid`: there are 11 valid, distinct sites, `siteList[k]` has id k, and the transactions are distinct and valid.

## Model

| member | source | states |
|---|---|---|
| Transactions.Transaction.constructor | trans/transaction.py:6-11 | A new transaction is RUNNING, stores the given id, type and time, and its allowed-status list is the four statuses |
| Transactions.Transaction.GetStatus | trans/transaction.py:13-21 | Returns the current status and changes nothing; for a valid transaction it is one of the four allowed values |
| Transactions.Transaction.SetStatus | trans/transaction.py:23-32 | The status becomes the new value exactly when that value is allowed, and is otherwise unchanged; only `status` may change; the status invariant is preserved |
| Sites.InitialSlot | sites/site.py:24-28 | The initial layout as written, Python's negative index included: every even variable x_{k+1} holds 10*(k+1) at every site; an odd site id holds no odd variable; every stored value is a multiple of 10 |
| Sites.InitialPlacement | sites/site.py:24-28 | For sites 1..10 the initial layout is the placement rule: slot x-1 holds 10*x when x is even or the site is 1 + x mod 10, and None otherwise |
| Sites.PyIndex | sites/site.py:27-28 | Python's index on a 20-slot list: a negative index counts back from the end, and the result is congruent to the index mod 20 |
| Sites.Site.constructor | sites/site.py:6-29 | A new site is ON with no locks and no buffers; its array holds the initial layout (including the wrap-around writes of site 0); the array is fresh, and snapshot 0 is a value copy of it, so later writes to the array cannot alter the snapshot |
| Sites.Site.GetVariable | sites/site.py:31-39 | Returns the site's own 20-slot array (not a copy) |
| Sites.Site.CheckLock | sites/site.py:44-72 | A grant on a locked variable is always in the lock's own mode, and a write grant goes only to a holder; so a read lock never grants a write (no promotion) |
| Sites.Site.CheckLockAsWritten | sites/site.py:68-72 | As the code is written, a write-locked variable is never granted, because the Transaction object is compared with the holder ids; elsewhere it agrees with `CheckLock` |
| Sites.Site.Lock | sites/site.py:74-107 | The result equals `CheckLock`, and the effect is `LockOutcome`. On success, the holder set gains the id (a new entry takes the requested mode), a queue holding the id loses its head, and the block table is unchanged. On failure, the lock table is unchanged, an existing queue gains the id at its tail if absent (no queue is created), and the id's block set becomes a superset of the current holders. The lock-table invariant is preserved |
| Sites.Site.LockAsWritten | sites/site.py:74-107 | `lock` as written, deciding with `CheckLockAsWritten`: the same `LockOutcome`. When the holder of a W lock asks to write again, it is refused, the lock table is unchanged, and the id's block set contains the id itself, so it waits for itself |
| Sites.Site.Apply | sites/site.py:84-107 | Carries out a decision that agrees with the existing lock mode: the effect is `LockOutcome` and the lock-table invariant is preserved |
| Sites.Site.Failed | sites/site.py:126-145 | The status becomes OFF and the lock table empty; the result holds each lock holder of the old table exactly once; values, buffers and snapshots are untouched |
| Sites.Site.Recovered | sites/site.py:147-155 | Only the status changes, to ON |
| Sites.Site.Unlock | sites/site.py:159-181 | Afterwards the id is in no holder set. Entries left empty are removed, and the others keep their mode and their other holders. The id's buffer is dropped. A transaction not flagged aborted is committed: each buffered value is written and the snapshot is recorded. An aborted transaction changes neither values nor snapshots. The lock-table invariant is preserved |
| Sites.Site.CommitTrans | sites/site.py:183-199 | Each buffered (variable, value) of the id lands in slot variable-1, the other slots are unchanged, and the snapshot at the given time is the post-commit array |
| Sites.WriteReentry | sites/site.py:68-72 | When the only holder of a W lock asks to write again, `CheckLock` grants and `CheckLockAsWritten` refuses |
| Sites.ReleaseKeepsCompatible | sites/site.py:167-176 | Removing one id from every holder set and dropping the emptied entries keeps the lock-table invariant (a W entry keeps exactly one holder) |
| TransManager.TransactionManager.constructor | tm/TransManager.py:8-22 | There are 11 sites and `siteList[k]` has id k; each is fresh, ON, without locks, and holds its initial layout; the transaction list and the wait and block tables are empty |
| TransManager.TransactionManager.FindTrans | tm/TransManager.py:24-35 | Returns null exactly when no transaction has the id; otherwise returns the first transaction in list order with that id |
| TransManager.TransactionManager.Fail | tm/TransManager.py:88-102 | Site `siteId-1` is OFF with an empty lock table. A transaction becomes ABORTED exactly when it is the first with the id of a former lock holder of that site, and every other status is unchanged. The manager's invariant is preserved |
| TransManager.TransactionManager.AbortAll | tm/TransManager.py:99-102 | For every id in the list, the first transaction with that id becomes ABORTED, and no other status changes |
| TransManager.TransactionManager.AbortFirst | tm/TransManager.py:100-102 | The first transaction with the given id, if any, becomes ABORTED, and no other status changes |
| TransManager.TransactionManager.Recover | tm/TransManager.py:104-123 | Site `siteId-1` is ON. When another site is ON, each of its even variables takes the value at the highest-indexed other ON site; its odd variables and every other site's array are unchanged. The manager's invariant is preserved |
| TransManager.TransactionManager.PickDonor | tm/TransManager.py:117-121 | Finds the highest-indexed ON site other than index `siteId-1`, and returns None exactly when there is no such site |
| TransManager.TransactionManager.CopyReplicated | tm/TransManager.py:122-123 | The slots of even variables (odd slot indices) take the source's values, and the other slots keep theirs |
| TransManager.TransactionManager.Up | tm/TransManager.py:61-65 | Entry k of the mask is true exactly when site k's status is "ON", for every site |
| TransManager.TransactionManager.RouteRead | tm/TransManager.py:59-68 | An odd variable consults only index x mod 10, and only when that site is ON. An even variable consults the ON sites at indices 0..9 in increasing order, stopping at the first that answers "read". The status is the last answer, or "failed" when no site was consulted |
| TransManager.TransactionManager.ScanUpSites | tm/TransManager.py:63-68 | The loop over indices 0..9 consults exactly the sites `EvenScan` prescribes, and ends with the last consulted site's answer |
| TransManager.TransactionManager.Read | tm/TransManager.py:58-71 | Consults the same sites as `RouteRead`. An odd variable consults [x mod 10] when that site is ON and nothing otherwise. An even variable consults `EvenScan`: ON sites in increasing order up to the first "read". The status is the last answer or "failed". The transaction becomes ABORTED exactly when the status is "fail", so the initial "failed" (no site consulted) never aborts |
| TransManager.EvenScan | tm/TransManager.py:63-68 | Every index the even-variable scan consults lies below the scanned bound |
| TransManager.EvenScanScansUpSites | tm/TransManager.py:63-68 | The even-variable scan consults only ON sites, in increasing order. Only the last consulted site may have answered "read". Every ON site is consulted unless an earlier one answered "read" |
| TransManager.EvenScanOnlyUp | tm/TransManager.py:64-65 | The scan consults only indices below the bound whose site is ON |
| TransManager.EvenScanIncreasing | tm/TransManager.py:64 | The consulted indices are strictly increasing |
| TransManager.EvenScanNoEarlyRead | tm/TransManager.py:67-68 | No consulted site except the last answered "read" |
| TransManager.EvenScanNoneSkipped | tm/TransManager.py:64-68 | Each ON site below the bound is consulted, unless the last consulted site lies before it and answered "read" |
| TransManager.EvenScanStaysStopped | tm/TransManager.py:67-68 | Once a consulted site answered "read", scanning further indices consults nothing more (the `break`) |
| Parser.IsSpace | main.py:16-21 | Whitespace is the fixed set of 29 code points that Python's `str.strip()` removes by default |
| Parser.CommentIffSubstring | main.py:11-12 | The comment test holds exactly when "//" occurs as a contiguous slice of the line, as Python's `"//" in line` does |
| Parser.StripStart | main.py:16 | Counts the leading characters of the string and they are all whitespace; the next character, if any, is not |
| Parser.StripEnd | main.py:16 | Marks where the trailing whitespace of a slice begins: everything after it is whitespace, and the character before it is not |
| Parser.Strip | main.py:16 | `str.strip()`: the result is a contiguous slice of the input. Only whitespace was removed from either end, and neither end of the result is whitespace |
| Parser.StripKeepsChars | main.py:16 | Stripping adds no character |
| Parser.Split | main.py:14 | `str.split(sep)`: there is at least one piece, no piece contains the separator, and joining the pieces with the separator gives back the input |
| Parser.SplitWithoutSeparator | main.py:14 | A string without the separator splits into itself alone |
| Parser.AlnumPrefix | main.py:16 | Gives the length of the longest `[a-zA-Z0-9]` prefix |
| Parser.AlnumPrefixUnique | main.py:16 | An alphanumeric prefix followed by a non-alphanumeric character or the end is the longest one |
| Parser.IndexOf | main.py:16 | Finds the first occurrence of the character, or None exactly when it does not occur |
| Parser.MatchCall | main.py:16-19 | A match yields a non-empty alphanumeric name and an argument text without ')' whose characters all come from the input |
| Parser.MatchCallValue | main.py:16-18 | When the name is followed by '(' and a ')' occurs later, the groups are the name and the text up to the first ')' |
| Parser.MatchIffCall | main.py:16-17 | The pattern matches exactly the strings that begin with name, '(', text without ')', then ')' |
| Parser.MatchIsCall | main.py:16-17 | A match means the string begins with a call shape |
| Parser.CallIsMatched | main.py:16-17 | A string beginning with a call shape is matched |
| Parser.MatchIgnoresTail | main.py:16 | Appending any text after a match leaves the match unchanged, because the pattern is anchored only at the start |
| Parser.StripAll | main.py:21 | Every piece is stripped, in order, and none is dropped |
| Parser.ParseSegment | main.py:16-22 | In a segment without ';', a recognised command has a non-empty alphanumeric name and at least one argument; each argument is stripped and free of ')', ',' and ';' |
| Parser.SegmentIffCall | main.py:16-17 | A segment contributes a command exactly when its stripped text begins with a call shape |
| Parser.ArgsWellFormed | main.py:20-21 | The arguments cut from a text without ')' and ';' are stripped and contain none of ')', ',' and ';' |
| Parser.Contribution | main.py:16-22 | A segment contributes at most one command, and it is well formed when the segment has no ';' |
| Parser.ParseSegments | main.py:14-22 | The commands of the segments are at most one per segment |
| Parser.ParseSegmentsWellFormed | main.py:14-22 | Segments without ';' yield only well-formed commands |
| Parser.ParseLine | main.py:8-23 | The functional form of the lexer: None exactly for a line containing "//", otherwise at most one command per ';'-separated segment |
| Parser.CommandParser | main.py:8-23 | The loop's result is `ParseLine`: it is None exactly when the line contains "//". Otherwise it has at most one command per ';'-separated segment, in segment order, and every command is well formed |
| Parser.EmptyCallHasOneEmptyArgument | main.py:20 | A call with empty parentheses such as `dump()` yields one command whose argument list is `[""]` |
| Parser.EmptyCallIsOneSegment | main.py:11-14 | `name()` contains no comment marker and is a single segment |
| Parser.EmptyCallSegment | main.py:16-21 | The segment `name()` yields the command with that name and arguments `[""]` |
| Parser.EmptyCallMatch | main.py:16-18 | `name()` matches with groups (name, "") |

## Left out

- Console output is not modelled. This covers all `dump` methods (sites/site.py:109-124, tm/TransManager.py:37-56) and the `print` calls in `fail`, `recover` and `read`.
- `fileReader`, `streamReader` and `main` in main.py (file and stdin iteration, argument parsing) are not part of this model. The operation name's own `.strip()` (main.py:19) is a no-op on an alphanumeric name and is not modelled.
- `TransactionManager.write` has an empty body (tm/TransManager.py:79-85) and is not modelled.
- `Site.read`, which `read` calls (tm/TransManager.py:62, 66), does not exist in sites/site.py. Each site's answer is a parameter `answers`, and the value read is not modelled.
- Site statuses and answers are taken as a snapshot at the start of `read`, because a site's answer cannot change site statuses in this model.
- The `"read"` branch of `read` only prints. The `"wait"` branch calls `append` on a dict (tm/TransManager.py:77) and fails. Neither is modelled; the outcome modelled is the abort on "fail".
- TransManager.TransactionManager.Recover: when no other site is ON, the code raises NameError on the unbound donor. The model returns None, with the site ON and every value unchanged.
- TransManager.TransactionManager.Fail, TransManager.TransactionManager.Recover: `siteId` must lie in 1..11. The code would also accept 0 or a negative id through Python's negative list indexing.
- `trans_list` is created as a dict (tm/TransManager.py:16) but `find_trans` iterates it as a collection of transaction objects. The model keeps a sequence of transactions, which is what `find_trans` reads.
- Sites.Site.Lock: it requires the variable to be locked or the request to be granted. On the refusal path the code reads the variable's lock entry, which raises KeyError when the variable is unlocked but others are queued for it (sites/site.py:101, 105).
- Holders are a set of ids. The code creates them as a list (sites/site.py:86) and then calls `.add` on them (sites/site.py:89), which a list does not have.
- The wait and block tables that `lock` mutates in place are passed to `Site.Lock` by value and returned updated.
- The order of the list `failed` returns is not modelled, only its contents without repetition (the code visits entries in dictionary order).
- `op`, `ifabort` and `endtime` are read by a site but not defined in trans/transaction.py. They are fields of the transaction record with default values, and nothing links `ifAbort` to the status.
- `version` is stored but never read; the model keeps the field and ignores it.
- site/site.py is an older draft of the same class that is not valid Python; only sites/site.py is modelled.
- The manager uses indices as the code does: `fail(k)` and `recover(k)` act on `site_list[k-1]`, whose id is k-1; an odd variable is read at `site_list[x % 10]`; the even scan covers indices 0..9, which includes the dummy site 0 and excludes site 10.

## Findings

| source | as written | input that shows it | evidently intended | confidence | as-written member | corrected member |
|---|---|---|---|---|---|---|
| sites/site.py:69 | `trans in self.locktable[var][1]` tests the Transaction object against a set of id strings, so a write-locked variable is never granted again, even to its own holder | T1 holds the W lock on x2 and asks again to write x2: `check_lock` answers False, and `lock` then refuses, leaves the lock table as it is and records T1 as waiting for itself | compare `trans.transid`, so the holder may write again | high, not executed | Sites.Site.CheckLockAsWritten, Sites.Site.LockAsWritten, Sites.WriteReentry | Sites.Site.CheckLock, Sites.Site.Lock |
