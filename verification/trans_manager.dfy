/**
 * The transaction manager (tm/TransManager.py): a registry of eleven sites
 * (index 0 holds a dummy site with id 0), the transaction list, and the
 * site-level effects of `fail`, `recover` and the routing of `read`.
 */
module TransManager {
  import opened Wrappers
  import opened Transactions
  import opened Sites

  /** `list[i]` is the first transaction of `list` with its id, the one a
      front-to-back search by id finds. */
  ghost predicate IsFirstWithId(list: seq<Transaction>, i: int)
    requires 0 <= i < |list|
    reads list`transId
  {
    forall j :: 0 <= j < i ==> list[j].transId != list[i].transId
  }

  /** `fail` aborts `list[i]`: its id is among `names` and it is the first
      transaction with that id. */
  ghost predicate Marked(list: seq<Transaction>, names: seq<string>, i: int)
    requires 0 <= i < |list|
    reads list`transId
  {
    list[i].transId in names && IsFirstWithId(list, i)
  }

  lemma MarkedSnoc(list: seq<Transaction>, names: seq<string>, k: nat, i: int)
    requires k < |names| && 0 <= i < |list|
    ensures Marked(list, names[..k + 1], i) <==>
      Marked(list, names[..k], i) || (list[i].transId == names[k] && IsFirstWithId(list, i))
  {
    assert names[..k + 1] == names[..k] + [names[k]];
  }

  /** The last site consulted answered "read", which ends the scan. */
  predicate Stopped(answers: seq<string>, consulted: seq<nat>)
    requires consulted != [] ==> consulted[|consulted| - 1] < |answers|
  {
    consulted != [] && answers[consulted[|consulted| - 1]] == "read"
  }

  /** The sites the read of an even variable consults among indices 0..n-1,
      given which sites are up and what each would answer. */
  function EvenScan(up: seq<bool>, answers: seq<string>, n: nat): (consulted: seq<nat>)
    requires n <= |up| && n <= |answers|
    ensures forall j :: 0 <= j < |consulted| ==> consulted[j] < n
  {
    if n == 0 then []
    else
      var prev := EvenScan(up, answers, n - 1);
      if Stopped(answers, prev) || !up[n - 1] then prev else prev + [n - 1]
  }

  /** `consulted` visits up sites among indices 0..n-1 only, in increasing
      order, every up site up to the first one answering "read", and none
      after it. */
  ghost predicate ScansUpSites(up: seq<bool>, answers: seq<string>, consulted: seq<nat>, n: nat)
    requires n <= |up| && n <= |answers|
  {
    && (forall j :: 0 <= j < |consulted| ==> consulted[j] < n && up[consulted[j]])
    && Increasing(consulted)
    && (forall j :: 0 <= j < |consulted| - 1 ==> answers[consulted[j]] != "read")
    && NoneSkipped(up, answers, consulted, n)
  }

  ghost predicate Increasing(s: seq<nat>)
  {
    forall j, k :: 0 <= j < k < |s| ==> s[j] < s[k]
  }

  /** Every up site below n was consulted, unless the scan had already
      stopped at an earlier "read". */
  ghost predicate NoneSkipped(up: seq<bool>, answers: seq<string>, consulted: seq<nat>, n: nat)
    requires n <= |up| && n <= |answers|
  {
    forall i :: 0 <= i < n && up[i] ==>
      i in consulted || (consulted != [] && consulted[|consulted| - 1] < i
                         && answers[consulted[|consulted| - 1]] == "read")
  }

  /** The scan meets its description: up sites in order, stopping after the
      first "read". */
  lemma EvenScanScansUpSites(up: seq<bool>, answers: seq<string>, n: nat)
    requires n <= |up| && n <= |answers|
    ensures ScansUpSites(up, answers, EvenScan(up, answers, n), n)
  {
    EvenScanOnlyUp(up, answers, n);
    EvenScanIncreasing(up, answers, n);
    EvenScanNoEarlyRead(up, answers, n);
    EvenScanNoneSkipped(up, answers, n);
  }

  lemma {:induction false} EvenScanOnlyUp(up: seq<bool>, answers: seq<string>, n: nat)
    requires n <= |up| && n <= |answers|
    ensures forall j :: 0 <= j < |EvenScan(up, answers, n)| ==> up[EvenScan(up, answers, n)[j]]
  {
    if n > 0 {
      EvenScanOnlyUp(up, answers, n - 1);
    }
  }

  lemma {:induction false} EvenScanIncreasing(up: seq<bool>, answers: seq<string>, n: nat)
    requires n <= |up| && n <= |answers|
    ensures Increasing(EvenScan(up, answers, n))
  {
    if n > 0 {
      EvenScanIncreasing(up, answers, n - 1);
    }
  }

  lemma {:induction false} EvenScanNoEarlyRead(up: seq<bool>, answers: seq<string>, n: nat)
    requires n <= |up| && n <= |answers|
    ensures forall j :: 0 <= j < |EvenScan(up, answers, n)| - 1 ==>
      answers[EvenScan(up, answers, n)[j]] != "read"
  {
    if n > 0 {
      EvenScanNoEarlyRead(up, answers, n - 1);
      var prev := EvenScan(up, answers, n - 1);
      if !Stopped(answers, prev) && up[n - 1] {
        var c := prev + [n - 1];
        assert forall j :: 0 <= j < |prev| ==> c[j] == prev[j];
      }
    }
  }

  lemma {:induction false} EvenScanNoneSkipped(up: seq<bool>, answers: seq<string>, n: nat)
    requires n <= |up| && n <= |answers|
    ensures NoneSkipped(up, answers, EvenScan(up, answers, n), n)
  {
    if n > 0 {
      EvenScanNoneSkipped(up, answers, n - 1);
    }
  }

  /** Once a site has answered "read", scanning further indices adds nothing. */
  lemma {:induction false} EvenScanStaysStopped(up: seq<bool>, answers: seq<string>, i: nat, n: nat)
    requires i <= n <= |up| && n <= |answers|
    requires Stopped(answers, EvenScan(up, answers, i))
    ensures EvenScan(up, answers, n) == EvenScan(up, answers, i)
    decreases n - i
  {
    if i < n {
      EvenScanStaysStopped(up, answers, i + 1, n);
    }
  }

  class TransactionManager {
    var transList: seq<Transaction>   // the keys of the transaction dict, in insertion order
    var siteList: seq<Site>
    var waitList: WaitList
    var blockList: BlockList

    /** Eleven valid sites, site k at index k, no two sharing an object or a
        value array. */
    ghost predicate SitesValid()
      reads this, siteList
    {
      && |siteList| == 11
      && (forall k :: 0 <= k < 11 ==> siteList[k].Valid() && siteList[k].siteId == k)
      && (forall j, k :: 0 <= j < k < 11 ==>
            siteList[j] != siteList[k] && siteList[j].variable != siteList[k].variable)
    }

    /** Distinct transactions, each valid. */
    ghost predicate TransValid()
      reads this, transList
    {
      && (forall j, k :: 0 <= j < k < |transList| ==> transList[j] != transList[k])
      && (forall t :: t in transList ==> t.Valid())
    }

    ghost predicate Valid()
      reads this, siteList, transList
    {
      SitesValid() && TransValid()
    }

    /** Site `d` is the one `recover` copies from when site index `skip`
        recovers: the highest-indexed ON site other than `skip`. */
    ghost predicate IsDonor(skip: int, d: int)
      reads this, siteList
    {
      && 0 <= d < |siteList| && d != skip && siteList[d].status == "ON"
      && forall j :: d < j < |siteList| && j != skip ==> siteList[j].status != "ON"
    }

    /** Which sites are ON, index by index. */
    function Up(): (up: seq<bool>)
      reads this, siteList
      ensures |up| == |siteList|
      ensures forall k :: 0 <= k < |siteList| ==> up[k] == (siteList[k].status == "ON")
    {
      seq(|siteList|, k requires 0 <= k < |siteList| reads this, siteList => siteList[k].status == "ON")
    }

    /** Builds the dummy site 0 and the sites 1..10, all ON with their
        initial layout; no transactions and empty wait and block lists. */
    constructor ()
      ensures Valid()
      ensures forall k :: 0 <= k < 11 ==>
        && fresh(siteList[k]) && fresh(siteList[k].variable)
        && siteList[k].status == "ON" && siteList[k].lockTable == map[]
        && forall x :: 0 <= x < 20 ==> siteList[k].variable[x] == InitialSlot(k, x)
      ensures transList == [] && waitList == map[] && blockList == map[]
    {
      transList := [];
      var dummy := new Site(0);
      var sites := [dummy];
      for i := 0 to 10
        invariant |sites| == i + 1
        invariant forall k :: 0 <= k < |sites| ==>
          && fresh(sites[k]) && fresh(sites[k].variable)
          && sites[k].Valid() && sites[k].siteId == k
          && sites[k].status == "ON" && sites[k].lockTable == map[]
          && forall x :: 0 <= x < 20 ==> sites[k].variable[x] == InitialSlot(k, x)
        invariant forall j, k :: 0 <= j < k < |sites| ==>
          sites[j] != sites[k] && sites[j].variable != sites[k].variable
      {
        var s := new Site(i + 1);
        sites := sites + [s];
      }
      siteList := sites;
      waitList := map[];
      blockList := map[];
    }

    /** The first transaction whose id is `name`, or null when there is none. */
    method FindTrans(name: string) returns (t: Transaction?)
      ensures t == null <==> forall i :: 0 <= i < |transList| ==> transList[i].transId != name
      ensures t != null ==>
        && t.transId == name
        && exists i :: 0 <= i < |transList| && transList[i] == t && IsFirstWithId(transList, i)
    {
      for i := 0 to |transList|
        invariant forall j :: 0 <= j < i ==> transList[j].transId != name
      {
        if name == transList[i].transId {
          assert IsFirstWithId(transList, i);
          return transList[i];
        }
      }
      return null;
    }

    /** Fails the site at index `siteId - 1` (the site whose id is
        `siteId - 1`): it goes OFF and loses its lock table, and every
        transaction found by the id of a former lock holder is ABORTED. No
        other transaction's status changes. */
    method Fail(siteId: int)
      requires Valid()
      requires 1 <= siteId <= |siteList|
      modifies siteList[siteId - 1..siteId]`status, siteList[siteId - 1..siteId]`lockTable, transList`status
      ensures Valid()
      ensures siteList[siteId - 1].status == "OFF" && siteList[siteId - 1].lockTable == map[]
      ensures forall i :: 0 <= i < |transList| ==>
        transList[i].status ==
          if transList[i].transId in old(AllHolders(siteList[siteId - 1].lockTable))
             && IsFirstWithId(transList, i)
          then "ABORTED" else old(transList[i].status)
    {
      var site := siteList[siteId - 1];
      var transToAbort := site.Failed();
      AbortAll(transToAbort);
    }

    /** The loop of `fail`: the first transaction with each of the ids in
        `names` becomes ABORTED; no other status changes. */
    method AbortAll(names: seq<string>)
      requires TransValid()
      modifies transList`status
      ensures TransValid()
      ensures forall i :: 0 <= i < |transList| ==>
        transList[i].status == if Marked(transList, names, i) then "ABORTED" else old(transList[i].status)
    {
      for k := 0 to |names|
        invariant TransValid()
        invariant forall i :: 0 <= i < |transList| ==>
          transList[i].status ==
            if Marked(transList, names[..k], i) then "ABORTED" else old(transList[i].status)
      {
        AbortFirst(names[k]);
        forall i | 0 <= i < |transList| {
          MarkedSnoc(transList, names, k, i);
        }
      }
      assert names[..|names|] == names;
    }

    /** The body of `fail`'s loop: the first transaction with id `name`, if
        there is one, becomes ABORTED; no other status changes. */
    method AbortFirst(name: string)
      requires TransValid()
      modifies transList`status
      ensures TransValid()
      ensures forall i :: 0 <= i < |transList| ==>
        transList[i].status ==
          if transList[i].transId == name && IsFirstWithId(transList, i)
          then "ABORTED" else old(transList[i].status)
    {
      var t := FindTrans(name);
      if t != null {
        ghost var found :| 0 <= found < |transList| && transList[found] == t && IsFirstWithId(transList, found);
        t.SetStatus("ABORTED");
        forall i | 0 <= i < |transList| && i != found
          ensures transList[i].status == old(transList[i].status)
          ensures transList[i].transId == name ==> !IsFirstWithId(transList, i)
        {
          assert transList[i] != t;
          assert i < found ==> transList[i].transId != t.transId;
        }
      }
    }

    /** Recovers the site at index `siteId - 1`: it goes ON, and each of its
        even variables is overwritten with the donor's value, the donor being
        the highest-indexed other ON site. Odd variables and all other sites
        are untouched. With no other ON site there is no donor (the code then
        fails on an unbound name) and no value changes. */
    method Recover(siteId: int) returns (donor: Option<nat>)
      requires Valid()
      requires 1 <= siteId <= |siteList|
      modifies siteList[siteId - 1..siteId]`status, siteList[siteId - 1].variable
      ensures Valid()
      ensures siteList[siteId - 1].status == "ON"
      ensures donor.None? <==>
        forall i :: 0 <= i < |siteList| && i != siteId - 1 ==> siteList[i].status != "ON"
      ensures donor.Some? ==> IsDonor(siteId - 1, donor.value)
      ensures forall x :: 0 <= x < 20 ==>
        siteList[siteId - 1].variable[x] ==
          if donor.Some? && x % 2 == 1 then old(siteList[donor.value].variable[x])
          else old(siteList[siteId - 1].variable[x])
      ensures forall i :: 0 <= i < |siteList| && i != siteId - 1 ==>
        siteList[i].variable[..] == old(siteList[i].variable[..])
    {
      var target := siteList[siteId - 1];
      target.Recovered();
      donor := PickDonor(siteId);
      if donor.Some? {
        CopyReplicated(target, siteList[donor.value]);
      }
    }

    /** The first loop of `recover`: the last ON site in index order, skipping
        the recovering site's index `siteId - 1`; None when no other site is ON. */
    method PickDonor(siteId: int) returns (donor: Option<nat>)
      ensures donor.None? <==>
        forall i :: 0 <= i < |siteList| && i != siteId - 1 ==> siteList[i].status != "ON"
      ensures donor.Some? ==> IsDonor(siteId - 1, donor.value)
    {
      donor := None;
      for i := 0 to |siteList|
        invariant donor.None? ==>
          forall j :: 0 <= j < i && j != siteId - 1 ==> siteList[j].status != "ON"
        invariant donor.Some? ==>
          && donor.value < i && donor.value != siteId - 1 && siteList[donor.value].status == "ON"
          && forall j :: donor.value < j < i && j != siteId - 1 ==> siteList[j].status != "ON"
      {
        if i + 1 == siteId {
          continue;
        }
        if siteList[i].status == "ON" {
          donor := Some(i);
        }
      }
    }

    /** The second loop of `recover`: for v = 2, 4, .., 20 the slot v - 1 of
        `target` (variable x_v) takes the value of `source`; the slots of odd
        variables keep their values. */
    static method CopyReplicated(target: Site, source: Site)
      requires target.variable.Length == 20 && source.variable.Length == 20
      requires target.variable != source.variable
      modifies target.variable
      ensures forall x :: 0 <= x < 20 ==>
        target.variable[x] == if x % 2 == 1 then source.variable[x] else old(target.variable[x])
    {
      var v := 2;
      while v < 21
        invariant 2 <= v <= 22 && v % 2 == 0
        invariant forall x :: 0 <= x < 20 ==>
          target.variable[x] == if x % 2 == 1 && x < v - 1 then source.variable[x]
                                else old(target.variable[x])
      {
        target.variable[v - 1] := source.variable[v - 1];
        v := v + 2;
      }
    }

    /** Which sites `read` consults for variable `x`, given each site's answer
        (`answers[i]` is what the site at index i would answer), and the
        resulting status. An odd variable consults only index x mod 10, and
        only if that site is ON. An even variable consults the ON sites among
        indices 0..9 in increasing order and stops at the first that answers
        "read". The status is the last answer, or "failed" when no site was
        consulted. */
    method RouteRead(x: int, answers: seq<string>) returns (consulted: seq<nat>, status: string)
      requires |siteList| == 11 && |answers| == |siteList|
      ensures forall j :: 0 <= j < |consulted| ==> consulted[j] < 10
      ensures x % 2 != 0 ==>
        consulted == if siteList[x % 10].status == "ON" then [x % 10] else []
      ensures x % 2 == 0 ==> consulted == EvenScan(Up(), answers, 10)
      ensures x % 2 == 0 ==> ScansUpSites(Up(), answers, consulted, 10)
      ensures status == if consulted == [] then "failed" else answers[consulted[|consulted| - 1]]
    {
      status := "failed";
      consulted := [];
      if x % 2 != 0 {
        if siteList[x % 10].status == "ON" {
          consulted := [x % 10];
          status := answers[x % 10];
        }
      } else {
        consulted, status := ScanUpSites(answers);
        EvenScanScansUpSites(Up(), answers, 10);
      }
    }

    /** The even-variable branch of `read`: visits the ON sites at indices
        0..9 in increasing order until one answers "read". */
    method ScanUpSites(answers: seq<string>) returns (consulted: seq<nat>, status: string)
      requires |siteList| == 11 && |answers| == |siteList|
      ensures consulted == EvenScan(Up(), answers, 10)
      ensures status == if consulted == [] then "failed" else answers[consulted[|consulted| - 1]]
    {
      status := "failed";
      consulted := [];
      var up := Up();
      for i := 0 to 10
        invariant consulted == EvenScan(up, answers, i) && !Stopped(answers, consulted)
        invariant status == if consulted == [] then "failed" else answers[consulted[|consulted| - 1]]
      {
        if up[i] {
          consulted := consulted + [i];
          status := answers[i];
          if status == "read" {
            EvenScanStaysStopped(up, answers, i + 1, 10);
            break;
          }
        }
      }
    }

    /** `read` for transaction `t` on variable `x`: routes as `RouteRead`
        and aborts `t` exactly when the resulting status is "fail". The
        initial status "failed" therefore never aborts. */
    method Read(t: Transaction, x: int, answers: seq<string>)
      returns (consulted: seq<nat>, status: string)
      requires Valid() && |answers| == |siteList| && t.Valid()
      modifies t`status
      ensures t.Valid()
      ensures forall j :: 0 <= j < |consulted| ==> consulted[j] < |answers|
      ensures x % 2 != 0 ==>
        consulted == if siteList[x % 10].status == "ON" then [x % 10] else []
      ensures x % 2 == 0 ==> consulted == EvenScan(Up(), answers, 10)
      ensures x % 2 == 0 ==> ScansUpSites(Up(), answers, consulted, 10)
      ensures status == if consulted == [] then "failed" else answers[consulted[|consulted| - 1]]
      ensures t.status == if status == "fail" then "ABORTED" else old(t.status)
      ensures consulted == [] ==> t.status == old(t.status)
    {
      consulted, status := RouteRead(x, answers);
      if status == "fail" {
        t.SetStatus("ABORTED");
        assert Up() == old(Up()) && siteList[x % 10].status == old(siteList[x % 10].status);
      }
    }
  }
}
