/** The lock table: shared and exclusive locks on named resources. */
module Locks {

  datatype LockMode = Shared | Exclusive
  datatype LockEntry = LockEntry(holder: nat, mode: LockMode)
  type LockTable = map<string, seq<LockEntry>>

  function Entries(locks: LockTable, resource: string): seq<LockEntry> {
    if resource in locks then locks[resource] else []
  }

  /** An entry of another transaction stands in the way unless both are shared. */
  predicate Conflicts(e: LockEntry, txn: nat, mode: LockMode) {
    e.holder != txn && (mode == Exclusive || e.mode == Exclusive)
  }

  predicate Grantable(entries: seq<LockEntry>, txn: nat, mode: LockMode) {
    forall i :: 0 <= i < |entries| ==> !Conflicts(entries[i], txn, mode)
  }

  /** The table after a request: locks_[resource] is there afterwards even when it is denied. */
  function Acquire(locks: LockTable, txn: nat, resource: string, mode: LockMode): LockTable {
    var entries := Entries(locks, resource);
    locks[resource := if Grantable(entries, txn, mode) then entries + [LockEntry(txn, mode)] else entries]
  }

  function Drop(entries: seq<LockEntry>, txn: nat): seq<LockEntry> {
    if entries == [] then []
    else (if entries[0].holder == txn then [] else [entries[0]]) + Drop(entries[1..], txn)
  }

  function ReleaseAll(locks: LockTable, txn: nat): LockTable {
    map r | r in locks :: Drop(locks[r], txn)
  }

  predicate Holds(locks: LockTable, txn: nat, resource: string) {
    exists e :: e in Entries(locks, resource) && e.holder == txn
  }

  predicate HoldsExclusive(locks: LockTable, txn: nat, resource: string) {
    LockEntry(txn, Exclusive) in Entries(locks, resource)
  }

  // ----- the invariant -----

  ghost predicate Guarded(entries: seq<LockEntry>) {
    forall x, e :: x in entries && x.mode == Exclusive && e in entries ==> e.holder == x.holder
  }

  /** An exclusive entry excludes every other holder. */
  ghost predicate AllGuarded(locks: LockTable) {
    forall r :: Guarded(Entries(locks, r))
  }

  lemma {:induction false} DropMembers(entries: seq<LockEntry>, txn: nat)
    ensures forall e :: e in Drop(entries, txn) <==> e in entries && e.holder != txn
  {
    if entries != [] {
      DropMembers(entries[1..], txn);
      assert forall e :: e in entries <==> e == entries[0] || e in entries[1..];
    }
  }

  lemma ReleaseMembers(locks: LockTable, txn: nat, resource: string)
    ensures forall e :: e in Entries(ReleaseAll(locks, txn), resource) <==>
                        e in Entries(locks, resource) && e.holder != txn
  {
    DropMembers(Entries(locks, resource), txn);
  }

  lemma AcquireKeepsGuarded(locks: LockTable, txn: nat, resource: string, mode: LockMode)
    requires AllGuarded(locks)
    ensures AllGuarded(Acquire(locks, txn, resource, mode))
  {
    var after := Acquire(locks, txn, resource, mode);
    forall r ensures Guarded(Entries(after, r)) {
      assert Guarded(Entries(locks, r));
    }
  }

  lemma ReleaseKeepsGuarded(locks: LockTable, txn: nat)
    requires AllGuarded(locks)
    ensures AllGuarded(ReleaseAll(locks, txn))
  {
    forall r ensures Guarded(Entries(ReleaseAll(locks, txn), r)) {
      ReleaseMembers(locks, txn, r);
      assert Guarded(Entries(locks, r));
    }
  }

  // ----- runs -----

  datatype Request = Lock(txn: nat, resource: string, mode: LockMode) | Release(txn: nat)

  function Serve(locks: LockTable, q: Request): LockTable {
    match q
    case Lock(txn, resource, mode) => Acquire(locks, txn, resource, mode)
    case Release(txn) => ReleaseAll(locks, txn)
  }

  function Run(requests: seq<Request>): LockTable {
    if requests == [] then map[]
    else Serve(Run(requests[..|requests| - 1]), requests[|requests| - 1])
  }

  lemma {:induction false} RunGuarded(requests: seq<Request>)
    ensures AllGuarded(Run(requests))
  {
    if requests != [] {
      RunGuarded(requests[..|requests| - 1]);
      var before := Run(requests[..|requests| - 1]);
      match requests[|requests| - 1] {
        case Lock(txn, resource, mode) => AcquireKeepsGuarded(before, txn, resource, mode);
        case Release(txn) => ReleaseKeepsGuarded(before, txn);
      }
    }
  }

  /** Over every run from the empty table, a resource one transaction holds exclusively is held
      by no other. */
  lemma ExclusiveExcludes(requests: seq<Request>, t: nat, u: nat, resource: string)
    requires HoldsExclusive(Run(requests), t, resource) && Holds(Run(requests), u, resource)
    ensures t == u
  {
    RunGuarded(requests);
    assert Guarded(Entries(Run(requests), resource));
  }

  /** After any run, a request is granted just when no other transaction holds the resource in
      a way that clashes with it; a grant makes the requester a holder and takes nothing away. */
  lemma GrantedIff(requests: seq<Request>, txn: nat, resource: string, mode: LockMode)
    ensures var locks := Run(requests);
            var after := Acquire(locks, txn, resource, mode);
            && (Grantable(Entries(locks, resource), txn, mode) <==>
                forall u :: u != txn && Holds(locks, u, resource) ==>
                            mode == Shared && !HoldsExclusive(locks, u, resource))
            && (Grantable(Entries(locks, resource), txn, mode) ==> LockEntry(txn, mode) in Entries(after, resource))
            && (forall r :: Entries(locks, r) <= Entries(after, r))
            && (!Grantable(Entries(locks, resource), txn, mode) ==> Entries(after, resource) == Entries(locks, resource))
            && (forall r :: r != resource ==> Entries(after, r) == Entries(locks, r))
  {
    var locks := Run(requests);
    var entries := Entries(locks, resource);
    if Grantable(entries, txn, mode) {
      forall u | u != txn && Holds(locks, u, resource) ensures mode == Shared && !HoldsExclusive(locks, u, resource) {
        var e :| e in entries && e.holder == u;
        var i :| 0 <= i < |entries| && entries[i] == e;
        assert !Conflicts(entries[i], txn, mode);
      }
    } else {
      var i :| 0 <= i < |entries| && Conflicts(entries[i], txn, mode);
      assert Holds(locks, entries[i].holder, resource);
      assert entries[i].mode == Exclusive ==> entries[i] == LockEntry(entries[i].holder, Exclusive);
    }
  }
}

module LockManagers {
  import opened Locks

  lemma DropStep(entries: seq<LockEntry>, i: nat, txn: nat)
    requires i < |entries|
    ensures Drop(entries[i..], txn) == (if entries[i].holder == txn then [] else [entries[i]]) + Drop(entries[i + 1..], txn)
  {
    assert entries[i..][1..] == entries[i + 1..];
  }

  lemma DropNone(entries: seq<LockEntry>, txn: nat)
    requires entries == []
    ensures Drop(entries, txn) == []
  {
  }

  class LockManager {
    var locks: LockTable

    constructor ()
      ensures locks == Run([])
    {
      locks := map[];
    }

    /** One atomic step: the mutex is held throughout. */
    method AcquireLock(txnId: nat, resource: string, mode: LockMode) returns (granted: bool)
      modifies this
      ensures granted == Grantable(Entries(old(locks), resource), txnId, mode)
      ensures locks == Acquire(old(locks), txnId, resource, mode)
    {
      var entries := if resource in locks then locks[resource] else [];
      locks := locks[resource := entries];
      var i := 0;
      while i < |entries|
        invariant 0 <= i <= |entries|
        invariant forall k :: 0 <= k < i ==> !Conflicts(entries[k], txnId, mode)
        invariant locks == old(locks)[resource := entries]
      {
        if entries[i].holder != txnId && (mode == Exclusive || entries[i].mode == Exclusive) {
          assert Conflicts(entries[i], txnId, mode);
          return false;
        }
        i := i + 1;
      }
      locks := locks[resource := entries + [LockEntry(txnId, mode)]];
      return true;
    }

    method ReleaseAll(txnId: nat)
      modifies this
      ensures locks == Locks.ReleaseAll(old(locks), txnId)
    {
      var rest := locks.Keys;
      while rest != {}
        invariant rest <= locks.Keys == old(locks).Keys
        invariant forall r :: r in rest ==> locks[r] == old(locks)[r]
        invariant forall r :: r in locks && r !in rest ==> locks[r] == Drop(old(locks)[r], txnId)
        decreases |rest|
      {
        var r :| r in rest;
        var kept := EraseHolder(locks[r], txnId);
        locks := locks[r := kept];
        rest := rest - {r};
      }
    }

    static method EraseHolder(entries: seq<LockEntry>, txnId: nat) returns (kept: seq<LockEntry>)
      ensures kept == Drop(entries, txnId)
    {
      hide Drop;
      kept := [];
      var i := 0;
      assert entries[0..] == entries;
      while i < |entries|
        invariant 0 <= i <= |entries|
        invariant Drop(entries, txnId) == kept + Drop(entries[i..], txnId)
      {
        DropStep(entries, i, txnId);
        if entries[i].holder != txnId {
          kept := kept + [entries[i]];
        }
        i := i + 1;
      }
      DropNone(entries[i..], txnId);
    }

    method IsLocked(resource: string) returns (locked: bool)
      ensures locked <==> exists u :: Holds(locks, u, resource)
    {
      locked := resource in locks && locks[resource] != [];
      assert locked ==> Holds(locks, locks[resource][0].holder, resource);
    }
  }
}
