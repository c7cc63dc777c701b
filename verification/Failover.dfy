/**
 Choosing the next datanode (internal/rpc/datanode_failover.go): never-failed ones
 first, then the one whose last failure is the longest ago.
 */
module Failover {
  import opened Common

  type Address = string
  type Failures = map<Address, nat>   // the time of the last failure, which is never zero

  /** The process-wide record of datanode failures. */
  class FailureLog {
    var at: Failures
    var now: nat
    var troubles: nat                // how often a datanode or the namenode let a reader down

    ghost predicate Valid()
      reads this
    {
      0 < now && forall a :: a in at ==> 0 < at[a] <= now
    }

    constructor (at: Failures, now: nat)
      requires 0 < now && forall a :: a in at ==> 0 < at[a] <= now
      ensures Valid() && this.at == at && troubles == 0
    {
      this.at, this.now, troubles := at, now, 0;
    }

    method Record(a: Address)
      requires Valid()
      modifies this`at, this`now
      ensures Valid() && at == old(at)[a := now] && now >= old(now)
    {
      var later: int := *;
      if later > now {
        now := later;
      }
      at := at[a := now];
    }
  }

  /** Zero for a datanode that never failed, the time of its last failure otherwise. */
  function Key(at: Failures, a: Address): nat {
    if a in at then at[a] else 0
  }

  /** Index i is the first of the smallest keys in the list. */
  predicate IsPick(list: seq<Address>, at: Failures, i: nat) {
    && i < |list|
    && (forall j :: 0 <= j < |list| ==> Key(at, list[i]) <= Key(at, list[j]))
    && (forall j :: 0 <= j < i ==> Key(at, list[i]) < Key(at, list[j]))
  }

  function Without(list: seq<Address>, i: nat): seq<Address>
    requires i < |list|
  {
    list[..i] + list[i + 1..]
  }

  class DatanodeFailover {
    var datanodes: seq<Address>
    var currentDatanode: Address
    var err: Error

    constructor (datanodes: seq<Address>)
      ensures this.datanodes == datanodes && err == Nil
    {
      this.datanodes, currentDatanode, err := datanodes, "", Nil;
    }

    method RecordFailure(log: FailureLog, err: Error)
      requires log.Valid()
      modifies this`err, log`at, log`now
      ensures this.err == err && log.Valid()
      ensures log.at == old(log.at)[currentDatanode := log.now]
    {
      log.Record(currentDatanode);
      this.err := err;
    }

    /** Takes the next datanode off the list. */
    method Next(log: FailureLog) returns (address: Address, ghost i: nat)
      requires log.Valid()
      modifies this`datanodes, this`currentDatanode
      ensures old(datanodes) == [] ==> address == "" && datanodes == [] && currentDatanode == old(currentDatanode)
      ensures old(datanodes) != [] ==>
                && i < |old(datanodes)| && IsPick(old(datanodes), log.at, i)
                && address == currentDatanode == old(datanodes)[i]
                && datanodes == Without(old(datanodes), i)
    {
      i := 0;
      if |datanodes| == 0 {
        return "", 0;
      }
      var picked := -1;
      var oldestFailure := 0;
      var k := 0;
      while k < |datanodes|
        invariant 0 <= k <= |datanodes| && -1 <= picked < k
        invariant k == 0 <==> picked == -1
        invariant picked == -1 ==> oldestFailure == 0
        invariant picked >= 0 ==> oldestFailure == Key(log.at, datanodes[picked]) > 0
        invariant forall j :: 0 <= j < k ==> oldestFailure <= Key(log.at, datanodes[j])
        invariant forall j :: 0 <= j < picked ==> oldestFailure < Key(log.at, datanodes[j])
      {
        var a := datanodes[k];
        if a !in log.at {
          picked := k;
          break;
        } else if oldestFailure == 0 || log.at[a] < oldestFailure {
          picked := k;
          oldestFailure := log.at[a];
        }
        k := k + 1;
      }
      i := picked;
      address := datanodes[picked];
      datanodes := datanodes[..picked] + datanodes[picked + 1..];
      currentDatanode := address;
    }
  }

  function PickIndex(list: seq<Address>, at: Failures): (i: nat)
    requires list != []
    ensures IsPick(list, at, i)
    decreases |list|
  {
    var k := |list| - 1;
    if k == 0 then 0
    else
      var p := PickIndex(list[..k], at);
      assert forall j :: 0 <= j < k ==> list[..k][j] == list[j];
      if Key(at, list[k]) < Key(at, list[p]) then k else p
  }

  lemma PickIsUnique(list: seq<Address>, at: Failures, i: nat, j: nat)
    requires IsPick(list, at, i) && IsPick(list, at, j)
    ensures i == j
  {
    assert Key(at, list[i]) <= Key(at, list[j]) <= Key(at, list[i]);
  }

  /** The order in which the datanodes of a list are tried, by what `at` says. */
  function DrainOrder(list: seq<Address>, at: Failures): seq<Address>
    decreases |list|
  {
    if list == [] then []
    else
      var i := PickIndex(list, at);
      [list[i]] + DrainOrder(Without(list, i), at)
  }

  ghost predicate Distinct(list: seq<Address>) {
    forall i, j :: 0 <= i < j < |list| ==> list[i] != list[j]
  }

  ghost predicate Precedes(list: seq<Address>, x: Address, y: Address) {
    exists i, j :: 0 <= i < j < |list| && list[i] == x && list[j] == y
  }

  /** x comes before y: it failed longer ago (or never), or as long ago but is listed first. */
  ghost predicate Sooner(list: seq<Address>, at: Failures, x: Address, y: Address) {
    Key(at, x) < Key(at, y) || (Key(at, x) == Key(at, y) && Precedes(list, x, y))
  }

  ghost predicate StablySorted(order: seq<Address>, list: seq<Address>, at: Failures) {
    && multiset(order) == multiset(list)
    && forall i, j :: 0 <= i < j < |order| ==> Sooner(list, at, order[i], order[j])
  }

  lemma WithoutFacts(list: seq<Address>, i: nat)
    requires i < |list|
    ensures multiset(list) == multiset([list[i]]) + multiset(Without(list, i))
    ensures Distinct(list) ==> Distinct(Without(list, i)) && list[i] !in Without(list, i)
    ensures forall k :: 0 <= k < |list| - 1 ==> Without(list, i)[k] == list[if k < i then k else k + 1]
  {
    assert list == list[..i] + [list[i]] + list[i + 1..];
  }

  /** Moving one datanode from the list to those tried keeps them the same in all. */
  lemma TakeKeepsAll(tried: seq<Address>, list: seq<Address>, all: seq<Address>, i: nat)
    requires multiset(tried) + multiset(list) == multiset(all) && i < |list|
    ensures multiset(tried + [list[i]]) + multiset(Without(list, i)) == multiset(all)
    ensures |Without(list, i)| == |list| - 1
  {
    WithoutFacts(list, i);
  }

  lemma PrecedesWithout(list: seq<Address>, i: nat, x: Address, y: Address)
    requires i < |list| && Precedes(Without(list, i), x, y)
    ensures Precedes(list, x, y)
  {
    WithoutFacts(list, i);
    var rest := Without(list, i);
    var k, l :| 0 <= k < l < |rest| && rest[k] == x && rest[l] == y;
    var k', l' := if k < i then k else k + 1, if l < i then l else l + 1;
    assert k' < l' && list[k'] == x && list[l'] == y;
  }

  lemma PickIsSoonest(list: seq<Address>, at: Failures, i: nat, y: Address)
    requires IsPick(list, at, i) && y in Without(list, i)
    ensures Sooner(list, at, list[i], y)
  {
    WithoutFacts(list, i);
    var rest := Without(list, i);
    var k :| 0 <= k < |rest| && rest[k] == y;
    var k' := if k < i then k else k + 1;
    assert list[k'] == y && k' != i;
    if i < k' {
      assert Precedes(list, list[i], y);
    }
  }

  lemma PairIsSorted(list: seq<Address>, at: Failures, i: nat, tail: seq<Address>, k: nat, l: nat)
    requires IsPick(list, at, i) && StablySorted(tail, Without(list, i), at) && k < l <= |tail|
    ensures Sooner(list, at, ([list[i]] + tail)[k], tail[l - 1])
  {
    if k == 0 {
      assert tail[l - 1] in multiset(tail);
      assert tail[l - 1] in multiset(Without(list, i));
      PickIsSoonest(list, at, i, tail[l - 1]);
    } else {
      assert Sooner(Without(list, i), at, tail[k - 1], tail[l - 1]);
      if Precedes(Without(list, i), tail[k - 1], tail[l - 1]) {
        PrecedesWithout(list, i, tail[k - 1], tail[l - 1]);
      }
    }
  }

  lemma PickThenSorted(list: seq<Address>, at: Failures, i: nat, tail: seq<Address>)
    requires IsPick(list, at, i) && StablySorted(tail, Without(list, i), at)
    ensures StablySorted([list[i]] + tail, list, at)
  {
    var order := [list[i]] + tail;
    WithoutFacts(list, i);
    forall k, l | 0 <= k < l < |order|
      ensures Sooner(list, at, order[k], order[l])
    {
      PairIsSorted(list, at, i, tail, k, l);
    }
    hide Sooner, Without, IsPick, Distinct;
    assert multiset(order) == multiset([list[i]]) + multiset(tail);
  }

  /** Draining the list is a stable sort: never-failed datanodes first, then by the time
      of the last failure, and otherwise as listed. */
  lemma {:induction false} DrainIsStableSort(list: seq<Address>, at: Failures)
    ensures StablySorted(DrainOrder(list, at), list, at)
    decreases |list|
  {
    if list != [] {
      hide StablySorted, IsPick;
      var i := PickIndex(list, at);
      DrainIsStableSort(Without(list, i), at);
      PickThenSorted(list, at, i, DrainOrder(Without(list, i), at));
    }
  }

  lemma DrainStep(list: seq<Address>, at: Failures, i: nat)
    requires IsPick(list, at, i)
    ensures DrainOrder(list, at) == [list[i]] + DrainOrder(Without(list, i), at)
  {
    PickIsUnique(list, at, i, PickIndex(list, at));
  }

  /** Failures of datanodes that are not on the list do not change the order. */
  lemma {:induction false} DrainIgnoresOthers(list: seq<Address>, at: Failures, a: Address, t: nat)
    requires a !in list
    ensures DrainOrder(list, at[a := t]) == DrainOrder(list, at)
    decreases |list|
  {
    if list != [] {
      var i := PickIndex(list, at);
      assert forall x :: x in list ==> Key(at[a := t], x) == Key(at, x);
      assert IsPick(list, at[a := t], i);
      PickIsUnique(list, at[a := t], i, PickIndex(list, at[a := t]));
      DrainIgnoresOthers(Without(list, i), at, a, t);
    }
  }

  /** A datanode that was taken off a list of distinct ones is no longer on it. */
  lemma TakenIsGone(tried: seq<Address>, list: seq<Address>, all: seq<Address>, a: Address)
    requires Distinct(all) && multiset(tried) + multiset(list) == multiset(all) && a in tried
    ensures a !in list
  {
    if a in list {
      assert multiset(tried)[a] >= 1 && multiset(list)[a] >= 1;
      OccursOnce(all, a);
    }
  }

  lemma {:induction false} OccursOnce(list: seq<Address>, a: Address)
    requires Distinct(list)
    ensures multiset(list)[a] <= 1
    decreases |list|
  {
    if list != [] {
      var k := |list| - 1;
      assert list == list[..k] + [list[k]];
      OccursOnce(list[..k], a);
      if a == list[k] {
        assert a !in list[..k];
        assert a !in multiset(list[..k]);
      }
    }
  }

  lemma EmptyDrain(at: Failures)
    ensures DrainOrder([], at) == []
  {
  }

  /** Trying one datanode after the other, each of which may fail and be recorded as
      failed before the next is chosen, follows the order fixed at the start. */
  method TryAll(addresses: seq<Address>, at: Failures, now: nat) returns (order: seq<Address>)
    requires Distinct(addresses)
    requires 0 < now && forall a :: a in at ==> 0 < at[a] <= now
    ensures order == DrainOrder(addresses, at)
    ensures StablySorted(order, addresses, at)
  {
    hide StablySorted, IsPick, Distinct, DrainOrder;
    DrainIsStableSort(addresses, at);
    var log := new FailureLog(at, now);
    var df := new DatanodeFailover(addresses);
    order := [];
    while |df.datanodes| > 0
      invariant fresh(df) && fresh(log) && log.Valid() && Distinct(df.datanodes)
      invariant order + DrainOrder(df.datanodes, log.at) == DrainOrder(addresses, at)
      decreases |df.datanodes|
    {
      ghost var list := df.datanodes;
      var address;
      ghost var i;
      address, i := df.Next(log);
      DrainStep(list, log.at, i);
      WithoutFacts(list, i);
      order := order + [address];
      var fails: bool := *;
      if fails {
        ghost var before := log.at;
        df.RecordFailure(log, Failed);
        DrainIgnoresOthers(df.datanodes, before, address, log.now);
      }
    }
    EmptyDrain(log.at);
  }
}
