/** The lock manager of one row, as the latched operations change it in place. */
module RowLock {
  import opened LockTable

  class RowLock {
    const alg: Alg
    var lockType: Mode
    var ownerCnt: nat
    var waiterCnt: nat
    var owners: seq<Entry>
    var waiters: seq<Entry>

    ghost function Model(): Lock
      reads this
    {
      Lock(owners, waiters)
    }

    ghost predicate Valid()
      reads this
    {
      && Inv(alg, Model())
      && ownerCnt == |owners| && waiterCnt == |waiters| && lockType == Type(owners)
    }

    /** The flag a waiting thread spins on is down. */
    ghost predicate Flags(ready: array<bool>)
      reads this, ready
    {
      Down(waiters, ready[..])
    }

    constructor (alg: Alg)
      ensures Valid() && this.alg == alg && Model() == Lock([], [])
    {
      this.alg := alg;
      lockType, ownerCnt, waiterCnt, owners, waiters := None, 0, 0, [], [];
    }

    method NoOwnerIsOlder(e: Entry) returns (canwait: bool)
      ensures canwait == CanWait(owners, e)
    {
      var i := 0;
      while i < |owners|
        invariant i <= |owners|
        invariant forall j :: 0 <= j < i ==> owners[j].ts >= e.ts
      {
        if owners[i].ts < e.ts { return false; }
        i := i + 1;
      }
      canwait := true;
    }

    /** Put the waiter in its place in the timestamp order. */
    method InsertWaiter(e: Entry)
      modifies this`waiters
      ensures waiters == old(waiters)[..Rank(old(waiters), e.ts)] + [e] + old(waiters)[Rank(old(waiters), e.ts)..]
    {
      var i := 0;
      while i < |waiters| && e.ts < waiters[i].ts
        invariant i <= |waiters|
        invariant forall j :: 0 <= j < i ==> e.ts < waiters[j].ts
      {
        i := i + 1;
      }
      assert i == Rank(waiters, e.ts);
      waiters := waiters[..i] + [e] + waiters[i..];
    }

    /** The conflicting waiters before the last one, from the tail on. */
    method CollectWaiters(mode: Mode) returns (txnids: seq<nat>)
      requires waiters != []
      ensures txnids == Conflicting(Reversed(waiters[..|waiters| - 1]), mode)
    {
      txnids := [];
      ghost var ahead := waiters[..|waiters| - 1];
      var i: int := |waiters| - 1;
      assert ahead[|ahead|..] == [];
      while i > 0
        invariant 0 <= i <= |ahead|
        invariant txnids == Conflicting(Reversed(ahead[i..]), mode)
      {
        ghost var rest := ahead[i..];
        i := i - 1;
        assert ahead[i..] == [ahead[i]] + rest;
        ConflictingAppend(Reversed(rest), ahead[i], mode);
        if Conflict(mode, waiters[i].mode) {
          txnids := txnids + [waiters[i].id];
        }
      }
      assert ahead[0..] == ahead;
    }

    method CollectOwners(mode: Mode) returns (txnids: seq<nat>)
      requires Compatible(Model()) && lockType == Type(owners)
      ensures txnids == Conflicting(owners, mode)
    {
      txnids := [];
      OwnersConflictAlike(owners, mode);
      if Conflict(mode, lockType) {
        var i: int := 0;
        while i < |owners|
          invariant 0 <= i <= |owners|
          invariant txnids == Ids(owners[..i])
        {
          assert owners[..i + 1][..i] == owners[..i];
          txnids := txnids + [owners[i].id];
          i := i + 1;
        }
        assert owners[..|owners|] == owners;
      }
    }

    /** The ids of the transactions the last waiter has to wait for. */
    method CollectBlockers(mode: Mode) returns (txnids: seq<nat>)
      requires waiters != [] && Compatible(Model()) && lockType == Type(owners)
      ensures txnids == Blockers(Lock(owners, waiters[..|waiters| - 1]), Entry(0, 0, 0, mode))
    {
      var fromWaiters := CollectWaiters(mode);
      var fromOwners := CollectOwners(mode);
      txnids := fromWaiters + fromOwners;
    }

    method WaitAtTail(e: Entry, ready: array<bool>) returns (txnids: seq<nat>)
      requires Valid() && Flags(ready) && alg == DlDetect && MustWait(alg, Model(), e)
      requires Admissible(alg, Model(), e) && e.thd < ready.Length
      modifies this, ready
      ensures Valid() && Flags(ready)
      ensures Model() == Lock(old(owners), old(waiters) + [e])
      ensures ready[..] == old(ready[..])[e.thd := false]
      ensures txnids == Blockers(old(Model()), e) && txnids != []
    {
      ghost var l := Model();
      GetKeeps(alg, l, e);
      waiters := waiters + [e];
      waiterCnt := waiterCnt + 1;
      ready[e.thd] := false;
      assert waiters[..|waiters| - 1] == l.waiters;
      txnids := CollectBlockers(e.mode);
      BlockersNotEmpty(l, e);
      assert Blockers(l, e) == Blockers(l, Entry(0, 0, 0, e.mode));
    }

    method WaitInOrder(e: Entry, ready: array<bool>)
      requires Valid() && Flags(ready) && alg == WaitDie && MustWait(alg, Model(), e) && CanWait(owners, e)
      requires Admissible(alg, Model(), e) && e.thd < ready.Length
      modifies this, ready
      ensures Valid() && Flags(ready)
      ensures Model() == Get(WaitDie, old(Model()), e).0
      ensures ready[..] == old(ready[..])[e.thd := false]
    {
      GetKeeps(alg, Model(), e);
      ghost var ws, before := waiters, ready[..];
      InsertWaiter(e);
      waiterCnt := waiterCnt + 1;
      ready[e.thd] := false;
      DownStays(ws, waiters, e, Rank(ws, e.ts), before, ready[..]);
    }

    /** A request.  Under deadlock detection a transaction that has to wait is told, exactly,
        for whom; there is always somebody. */
    method LockGet(e: Entry, ready: array<bool>) returns (rc: Rc, txnids: seq<nat>)
      requires Valid() && Flags(ready)
      requires Admissible(alg, Model(), e) && e.thd < ready.Length
      modifies this, ready
      ensures Valid() && Flags(ready)
      ensures (Model(), rc) == Get(alg, old(Model()), e)
      ensures rc == Ok <==> AtOnce(alg, old(Model()), e)
      ensures rc == Wait ==> alg == DlDetect || (alg == WaitDie && NoOwnerOlder(old(Model()), e))
      ensures rc == Abort ==> alg == NoWait || (alg == WaitDie && !NoOwnerOlder(old(Model()), e))
      ensures ready[..] == if rc == Wait then old(ready[..])[e.thd := false] else old(ready[..])
      ensures rc == Wait && alg == DlDetect ==>
                txnids == Blockers(old(Model()), e) && txnids != []
    {
      txnids := [];
      ghost var l := Model();
      GetKeeps(alg, l, e);
      GetAnswers(alg, l, e);
      var conflict := Conflict(lockType, e.mode);
      if alg == WaitDie && !conflict && waiters != [] && e.ts < waiters[0].ts {
        conflict := true;
      }
      if alg == DlDetect && waiters != [] {
        conflict := true;
      }
      assert conflict == MustWait(alg, l, e);
      if conflict {
        match alg {
          case NoWait =>
            rc := Abort;
          case DlDetect =>
            rc := Wait;
            txnids := WaitAtTail(e, ready);
          case WaitDie =>
            var canwait := NoOwnerIsOlder(e);
            if canwait {
              WaitInOrder(e, ready);
              rc := Wait;
            } else {
              rc := Abort;
            }
        }
      } else {
        owners := [e] + owners;
        ownerCnt := ownerCnt + 1;
        lockType := e.mode;
        rc := Ok;
      }
    }

    method Position(es: seq<Entry>, thd: nat) returns (i: nat)
      ensures i == LockTable.Find(es, thd)
    {
      i := 0;
      while i < |es| && es[i].thd != thd
        invariant i <= |es|
        invariant forall j :: 0 <= j < i ==> es[j].thd != thd
      {
        i := i + 1;
      }
    }

    /** The transaction of the thread `thd` leaves, whether it owned the lock or waited for
        it, and the waiters that now fit are let in and told. */
    method LockRelease(thd: nat, ready: array<bool>) returns (ghost n: nat)
      requires Valid() && Flags(ready)
      requires Has(owners, thd) || Has(waiters, thd)
      modifies this, ready
      ensures Valid() && Flags(ready)
      ensures Model() == Release(old(Model()), thd)
      ensures Told(Remove(old(Model()), thd).waiters, waiters, n, old(ready[..]), ready[..])
    {
      hide Find, Grant, Told;
      RemoveSound(alg, Model(), thd);
      var i := Position(owners, thd);
      if i < |owners| {
        owners := owners[..i] + owners[i + 1..];
        ownerCnt := ownerCnt - 1;
        if ownerCnt == 0 {
          lockType := None;
        }
      } else {
        i := Position(waiters, thd);
        waiters := waiters[..i] + waiters[i + 1..];
        waiterCnt := waiterCnt - 1;
      }
      assert Model() == Remove(old(Model()), thd);
      n := Admit(ready);
    }

    /** Every waiter at the head that fits becomes an owner. */
    method Admit(ready: array<bool>) returns (ghost n: nat)
      requires Sound(alg, Model()) && Flags(ready)
      requires ownerCnt == |owners| && waiterCnt == |waiters| && lockType == Type(owners)
      modifies this, ready
      ensures Valid() && Flags(ready)
      ensures Model() == Grant(old(Model()))
      ensures Told(old(waiters), waiters, n, old(ready[..]), ready[..])
    {
      hide Compatible, Aged, Grant, Down;
      n := 0;
      while waiters != [] && !Conflict(lockType, waiters[0].mode)
        invariant Sound(alg, Model()) && Flags(ready)
        invariant ownerCnt == |owners| && waiterCnt == |waiters| && lockType == Type(owners)
        invariant Grant(Model()) == Grant(old(Model()))
        invariant Told(old(waiters), waiters, n, old(ready[..]), ready[..])
        decreases |waiters|
      {
        AdmitSound(alg, Model());
        ghost var before, raised := Model(), ready[..];
        DownNext(before, raised);
        var entry := waiters[0];
        waiters := waiters[1..];
        owners := [entry] + owners;
        ownerCnt := ownerCnt + 1;
        waiterCnt := waiterCnt - 1;
        ready[entry.thd] := true;
        lockType := entry.mode;
        ToldNext(old(waiters), before.waiters, n, old(ready[..]), raised, ready[..]);
        n := n + 1;
        assert Model() == Lock([before.waiters[0]] + before.owners, before.waiters[1..]);
        GrantOne(before);
      }
      GrantNone(Model());
    }
  }

  ghost predicate Down(es: seq<Entry>, ready: seq<bool>) {
    forall i :: 0 <= i < |es| ==> es[i].thd < |ready| && !ready[es[i].thd]
  }

  lemma DownNext(l: Lock, ready: seq<bool>)
    requires Apart(l) && l.waiters != [] && Down(l.waiters, ready)
    ensures l.waiters[0].thd < |ready| && Down(l.waiters[1..], ready[l.waiters[0].thd := true])
  {
  }

  lemma DownStays(es: seq<Entry>, es': seq<Entry>, e: Entry, k: nat, ready: seq<bool>, ready': seq<bool>)
    requires Down(es, ready) && k <= |es| && es' == es[..k] + [e] + es[k..]
    requires e.thd < |ready| && ready' == ready[e.thd := false]
    ensures Down(es', ready')
  {
    assert forall i :: 0 <= i < |es'| ==> es'[i] == if i < k then es[i] else if i == k then e else es[i - 1];
  }

  lemma ToldNext(before: seq<Entry>, after: seq<Entry>, n: nat, ready: seq<bool>, ready': seq<bool>, ready'': seq<bool>)
    requires Told(before, after, n, ready, ready') && after != [] && after[0].thd < |ready|
    requires ready'' == ready'[after[0].thd := true]
    ensures Told(before, after[1..], n + 1, ready, ready'')
  {
    assert before[n] == after[0];
    forall t | 0 <= t < |ready|
      ensures ready''[t] <==> ready[t] || exists i :: 0 <= i < n + 1 && before[i].thd == t
    {
    }
  }

  /** The first `n` waiters have left, and exactly their flags have been raised. */
  ghost predicate Told(before: seq<Entry>, after: seq<Entry>, n: nat, ready: seq<bool>, ready': seq<bool>) {
    && n <= |before| && after == before[n..] && |ready| == |ready'|
    && forall t :: 0 <= t < |ready| ==> (ready'[t] <==> ready[t] || exists i :: 0 <= i < n && before[i].thd == t)
  }

  lemma GrantOne(l: Lock)
    requires l.waiters != [] && !Conflict(Type(l.owners), l.waiters[0].mode)
    ensures Grant(l) == Grant(Lock([l.waiters[0]] + l.owners, l.waiters[1..]))
  {
  }

  lemma GrantNone(l: Lock)
    requires l.waiters == [] || Conflict(Type(l.owners), l.waiters[0].mode)
    ensures Grant(l) == l
  {
  }

  function Ids(es: seq<Entry>): (r: seq<nat>)
    ensures |r| == |es|
  {
    if es == [] then [] else Ids(es[..|es| - 1]) + [es[|es| - 1].id]
  }

  function IdIf(e: Entry, mode: Mode): seq<nat> { if Conflict(mode, e.mode) then [e.id] else [] }

  lemma ConflictingFirst(es: seq<Entry>, mode: Mode)
    ensures Conflicting(es, mode) == if es == [] then [] else IdIf(es[0], mode) + Conflicting(es[1..], mode)
  {
  }

  lemma {:induction false} ConflictingAppend(es: seq<Entry>, e: Entry, mode: Mode)
    ensures Conflicting(es + [e], mode) == Conflicting(es, mode) + IdIf(e, mode)
  {
    hide Conflicting, IdIf;
    ConflictingFirst(es, mode);
    ConflictingFirst(es + [e], mode);
    if es == [] {
      assert (es + [e])[1..] == [];
      ConflictingFirst([], mode);
    } else {
      assert (es + [e])[1..] == es[1..] + [e];
      ConflictingAppend(es[1..], e, mode);
    }
  }

  lemma {:induction false} AllConflict(es: seq<Entry>, mode: Mode, all: bool)
    requires forall i :: 0 <= i < |es| ==> Conflict(mode, es[i].mode) == all
    ensures Conflicting(es, mode) == if all then Ids(es) else []
  {
    if es != [] {
      var n := |es| - 1;
      AllConflict(es[..n], mode, all);
      assert es == es[..n] + [es[n]];
      ConflictingAppend(es[..n], es[n], mode);
    }
  }

  lemma OwnersConflictAlike(os: seq<Entry>, mode: Mode)
    requires forall i :: 0 <= i < |os| ==> os[i].mode != None && (os[i].mode == Ex ==> |os| == 1)
    ensures Conflicting(os, mode) == if Conflict(mode, Type(os)) then Ids(os) else []
  {
    AllConflict(os, mode, Conflict(mode, Type(os)));
  }
}
