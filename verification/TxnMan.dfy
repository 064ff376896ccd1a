/** A transaction under two-phase locking: it collects accesses with an undo copy for every
    write, and its cleanup walks them backwards, undoing an abort and giving every lock back. */
module TxnMan {
  import opened Serial
  import opened LockTable
  import opened RowLock

  /** A row and its lock manager. */
  class RowT {
    var data: Val
    const manager: RowLock

    constructor (data: Val, manager: RowLock)
      ensures this.data == data && this.manager == manager
    {
      this.data := data;
      this.manager := manager;
    }
  }

  datatype Acc = Acc(row: RowT, write: bool, orig: Val)

  class TxnMan {
    const me: Entry
    const ready: array<bool>
    var accesses: seq<Acc>
    var wrCnt: nat

    constructor (me: Entry, ready: array<bool>)
      ensures this.me == me && this.ready == ready && accesses == [] && wrCnt == 0
    {
      this.me := me;
      this.ready := ready;
      accesses, wrCnt := [], 0;
    }

    /** Rows and lock managers are separate objects. */
    ghost predicate Separate()
      reads this
    {
      forall i, j :: 0 <= i < j < |accesses| ==>
        accesses[i].row != accesses[j].row && accesses[i].row.manager != accesses[j].row.manager
    }

    ghost predicate Locked(i: nat)
      requires i < |accesses|
      reads this, accesses[i].row.manager, ready
    {
      var m := accesses[i].row.manager;
      m.Valid() && Down(m.waiters, ready[..]) && Has(m.owners, me.thd)
    }

    /** No thread waits for two rows at once. */
    static ghost predicate OneWait(locks: seq<Lock>) {
      forall i, j :: 0 <= i < |locks| && 0 <= j < |locks| && i != j ==> ApartWaiters(locks[i], locks[j])
    }

    static ghost predicate ApartWaiters(l: Lock, m: Lock) {
      forall a, b :: 0 <= a < |l.waiters| && 0 <= b < |m.waiters| ==> l.waiters[a].thd != m.waiters[b].thd
    }

    /** The access is taken down, with an undo copy. */
    method TakeDown(row: RowT, write: bool)
      modifies this
      ensures accesses == old(accesses) + [Acc(row, write, row.data)]
      ensures wrCnt == old(wrCnt) + if write then 1 else 0
    {
      accesses := accesses + [Acc(row, write, row.data)];
      wrCnt := wrCnt + if write then 1 else 0;
    }

    /** get_row up to the wait: ask for the lock and, if it is owned at once, take the access
        down. */
    method GetRow(row: RowT, write: bool) returns (rc: Rc, txnids: seq<nat>)
      requires row.manager.Valid() && row.manager.Flags(ready) && me.thd < ready.Length
      requires Admissible(row.manager.alg, row.manager.Model(), me.(mode := if write then Ex else Sh))
      modifies this, row.manager, ready
      ensures row.manager.Valid() && row.manager.Flags(ready)
      ensures (row.manager.Model(), rc) == Get(row.manager.alg, old(row.manager.Model()), me.(mode := if write then Ex else Sh))
      ensures rc == Ok ==> accesses == old(accesses) + [Acc(row, write, row.data)] && Has(row.manager.owners, me.thd)
      ensures rc == Wait ==> Has(row.manager.waiters, me.thd) && !ready[me.thd]
      ensures rc != Ok ==> accesses == old(accesses)
      ensures wrCnt == old(wrCnt) + if rc == Ok && write then 1 else 0
    {
      rc, txnids := row.manager.LockGet(me.(mode := if write then Ex else Sh), ready);
      if rc == Ok { TakeDown(row, write); }
      if rc == Wait { Enqueued(row.manager.alg, old(row.manager.Model()), me.(mode := if write then Ex else Sh)); }
    }

    /** get_row after the wait, which ends when the lock has been granted or the transaction is
        to abort: a granted lock is kept and its access taken down, otherwise the thread leaves
        the lock, even if it has been granted in the meantime. */
    method AfterWait(row: RowT, write: bool, granted: bool) returns (rc: Rc, ghost n: nat)
      requires row.manager.Valid() && row.manager.Flags(ready) && me.thd < ready.Length
      requires Has(row.manager.owners, me.thd) || Has(row.manager.waiters, me.thd)
      requires granted ==> ready[me.thd]
      modifies this, row.manager, ready
      ensures row.manager.Valid() && row.manager.Flags(ready)
      ensures rc == if granted then Ok else Abort
      ensures rc == Ok ==>
                && accesses == old(accesses) + [Acc(row, write, row.data)]
                && Has(row.manager.owners, me.thd) && row.manager.Model() == old(row.manager.Model()) && ready[..] == old(ready[..])
      ensures rc == Abort ==>
                && accesses == old(accesses) && row.manager.Model() == Release(old(row.manager.Model()), me.thd)
                && Told(Remove(old(row.manager.Model()), me.thd).waiters, row.manager.waiters, n, old(ready[..]), ready[..])
      ensures wrCnt == old(wrCnt) + if rc == Ok && write then 1 else 0
    {
      n := 0;
      if granted {
        rc := Ok;
        RaisedOwns(row.manager.waiters, ready[..], me.thd);
        TakeDown(row, write);
      } else {
        rc := Abort;
        n := row.manager.LockRelease(me.thd, ready);
      }
    }

    /** return_row for one access: undo it if the transaction aborts, and leave the lock. */
    method ReturnRow(a: Acc, abort: bool) returns (ghost n: nat)
      requires a.row.manager.Valid() && a.row.manager.Flags(ready) && Has(a.row.manager.owners, me.thd)
      modifies a.row, a.row.manager, ready
      ensures a.row.data == if abort && a.write then a.orig else old(a.row.data)
      ensures a.row.manager.Valid() && a.row.manager.Flags(ready)
      ensures a.row.manager.Model() == Release(old(a.row.manager.Model()), me.thd)
      ensures Told(old(a.row.manager.waiters), a.row.manager.waiters, n, old(ready[..]), ready[..])
    {
      if abort && a.write {
        a.row.data := a.orig;
      }
      n := a.row.manager.LockRelease(me.thd, ready);
    }

    /** The access `i` has not been returned yet. */
    ghost predicate Pending(i: nat, data: Val, l: Lock)
      requires i < |accesses|
      reads this, accesses[i].row, accesses[i].row.manager, ready
    {
      && Locked(i) && accesses[i].row.data == data && accesses[i].row.manager.Model() == l
    }

    ghost predicate Returned(i: nat, abort: bool, data: Val, l: Lock)
      requires i < |accesses|
      reads this, accesses[i].row, accesses[i].row.manager
    {
      var a := accesses[i];
      && a.row.data == (if abort && a.write then a.orig else data)
      && a.row.manager.Valid() && Has(l.owners, me.thd)
      && a.row.manager.Model() == Release(l, me.thd)
    }

    ghost predicate Halfway(rid: nat, abort: bool, datas: seq<Val>, locks: seq<Lock>)
      reads this, ready, (set a | a in accesses :: a.row), (set a | a in accesses :: a.row.manager)
    {
      && rid <= |accesses| == |datas| == |locks|
      && (forall i :: 0 <= i < rid ==> Pending(i, datas[i], locks[i]))
      && (forall i :: rid <= i < |accesses| ==> Returned(i, abort, datas[i], locks[i]))
    }

    method ReturnAt(rid: nat, abort: bool, ghost datas: seq<Val>, ghost locks: seq<Lock>)
      requires Separate() && OneWait(locks)
      requires rid < |accesses| && Halfway(rid + 1, abort, datas, locks)
      modifies ready, accesses[rid].row, accesses[rid].row.manager
      ensures Halfway(rid, abort, datas, locks)
    {
      ghost var before := ready[..];
      assert Pending(rid, datas[rid], locks[rid]);
      ghost var n := ReturnRow(accesses[rid], abort);
      ghost var after := accesses[rid].row.manager.waiters;
      forall i | 0 <= i < rid ensures Pending(i, datas[i], locks[i]) {
        assert old(Pending(i, datas[i], locks[i]));
        StayDown(locks[rid].waiters, after, n, locks[i].waiters, before, ready[..]);
      }
      forall i | rid <= i < |accesses| ensures Returned(i, abort, datas[i], locks[i]) {
        if i > rid { assert old(Returned(i, abort, datas[i], locks[i])); }
      }
    }

    /** After an abort every written row is what it was when the transaction got it; either
        way every lock is given back, once, and nothing else changes. */
    method Cleanup(abort: bool, ghost datas: seq<Val>, ghost locks: seq<Lock>)
      requires Separate() && OneWait(locks) && Halfway(|accesses|, abort, datas, locks)
      modifies this, ready, (set a | a in accesses :: a.row), (set a | a in accesses :: a.row.manager)
      ensures accesses == [] && wrCnt == 0
      ensures forall i :: 0 <= i < |old(accesses)| ==>
                && old(accesses)[i].row.data == (if abort && old(accesses)[i].write then old(accesses)[i].orig else datas[i])
                && old(accesses)[i].row.manager.Valid() && Has(locks[i].owners, me.thd)
                && old(accesses)[i].row.manager.Model() == Release(locks[i], me.thd)
    {
      var rid := |accesses|;
      while rid > 0
        invariant 0 <= rid && accesses == old(accesses) && Halfway(rid, abort, datas, locks)
      {
        rid := rid - 1;
        ReturnAt(rid, abort, datas, locks);
      }
      forall i | 0 <= i < |accesses|
        ensures && accesses[i].row.data == (if abort && accesses[i].write then accesses[i].orig else datas[i])
                && accesses[i].row.manager.Valid() && Has(locks[i].owners, me.thd)
                && accesses[i].row.manager.Model() == Release(locks[i], me.thd)
      {
        assert Returned(i, abort, datas[i], locks[i]);
      }
      accesses, wrCnt := [], 0;
    }
  }

  /** Waking the waiters of one row leaves those of another waiting. */
  lemma StayDown(before: seq<Entry>, after: seq<Entry>, n: nat, others: seq<Entry>, ready: seq<bool>, ready': seq<bool>)
    requires Told(before, after, n, ready, ready') && Down(others, ready)
    requires forall a, b :: 0 <= a < |before| && 0 <= b < |others| ==> before[a].thd != others[b].thd
    ensures Down(others, ready')
  {
  }

  /** Whose flag is up does not wait. */
  lemma RaisedOwns(waiters: seq<Entry>, ready: seq<bool>, thd: nat)
    requires Down(waiters, ready) && thd < |ready| && ready[thd]
    ensures !Has(waiters, thd)
  {
  }

  lemma Enqueued(alg: Alg, l: Lock, e: Entry)
    requires Get(alg, l, e).1 == Wait
    ensures Has(Get(alg, l, e).0.waiters, e.thd)
  {
    var k := Rank(l.waiters, e.ts);
    var ws := Get(alg, l, e).0.waiters;
    assert ws[if alg == WaitDie then k else |l.waiters|] == e;
  }
}
