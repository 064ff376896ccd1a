/** Strict two-phase locking is serializable in the order of the commits, an abort leaves no
    trace, and neither scheme that waits can hide a deadlock. */
module TwoPhaseProof {
  import opened Serial
  import opened LockTable
  import opened Ledger
  import opened TwoPhase
  import opened TwoPhaseReports

  // ------------------------------------------------------------ entries of one lock

  lemma InsertedMembers(es: seq<Entry>, k: nat, e: Entry)
    requires k <= |es|
    ensures forall o :: o in es[..k] + [e] + es[k..] <==> o in es || o == e
  {
    assert es == es[..k] + es[k..];
  }

  lemma GetMembers(alg: Alg, l: Lock, e: Entry)
    ensures var (l', rc) := Get(alg, l, e);
            && (forall o :: o in l'.owners <==> o in l.owners || (rc == Ok && o == e))
            && (forall o :: o in l'.waiters <==> o in l.waiters || (rc == Wait && o == e))
            && (rc == Abort ==> l' == l)
  {
    hide Conflict, Type, CanWait, MustWait, Rank;
    if MustWait(alg, l, e) && alg == WaitDie && CanWait(l.owners, e) { InsertedMembers(l.waiters, Rank(l.waiters, e.ts), e); }
  }

  lemma WithoutMembers(es: seq<Entry>, thd: nat, e: Entry)
    requires Has(es, thd)
    requires forall i, j :: 0 <= i < j < |es| ==> es[i].thd != es[j].thd
    ensures e in Without(es, Find(es, thd)) <==> e in es && e.thd != thd
  {
    var k := Find(es, thd);
    assert es == es[..k] + [es[k]] + es[k + 1..];
    assert forall i :: k < i < |es| ==> es[i].thd != thd;
  }

  lemma RemoveMembers(alg: Alg, l: Lock, thd: nat)
    requires Sound(alg, l) && (Has(l.owners, thd) || Has(l.waiters, thd))
    ensures forall e :: e in Remove(l, thd).owners <==> e in l.owners && e.thd != thd
    ensures forall e :: e in Remove(l, thd).waiters <==> e in l.waiters && e.thd != thd
  {
    forall e ensures e in Remove(l, thd).owners <==> e in l.owners && e.thd != thd {
      if Has(l.owners, thd) { WithoutMembers(l.owners, thd, e); }
    }
    forall e ensures e in Remove(l, thd).waiters <==> e in l.waiters && e.thd != thd {
      if !Has(l.owners, thd) { WithoutMembers(l.waiters, thd, e); }
    }
  }

  /** Moving a prefix of the waiters to the owners loses and invents nobody. */
  lemma MovedMembers(os: seq<Entry>, ws: seq<Entry>, n: nat, e: Entry)
    requires n <= |ws|
    ensures e in Reversed(ws[..n]) + os || e in ws[n..] <==> e in os || e in ws
    ensures e in ws[n..] ==> e in ws
    ensures e in os ==> e in Reversed(ws[..n]) + os
  {
    hide Reversed;
    ReversedMembers(ws[..n]);
    assert ws == ws[..n] + ws[n..];
  }

  lemma GrantMembers(alg: Alg, l: Lock)
    requires Sound(alg, l)
    ensures Inv(alg, Grant(l))
    ensures forall e :: e in Grant(l).owners || e in Grant(l).waiters <==> e in l.owners || e in l.waiters
    ensures forall e :: e in Grant(l).waiters ==> e in l.waiters
    ensures forall e :: e in l.owners ==> e in Grant(l).owners
  {
    hide Sound, Inv, Grant, Reversed;
    var n := GrantKeeps(alg, l);
    forall e
      ensures e in Grant(l).owners || e in Grant(l).waiters <==> e in l.owners || e in l.waiters
      ensures (e in Grant(l).waiters ==> e in l.waiters) && (e in l.owners ==> e in Grant(l).owners)
    {
      MovedMembers(l.owners, l.waiters, n, e);
    }
  }

  /** After a release: the thread is gone, owners stay, waiters stay or have become owners. */
  lemma ReleaseMembers(alg: Alg, l: Lock, thd: nat)
    requires Sound(alg, l) && (Has(l.owners, thd) || Has(l.waiters, thd))
    ensures var l' := Release(l, thd);
            && Inv(alg, l')
            && (forall e :: e in l'.owners || e in l'.waiters <==> (e in l.owners || e in l.waiters) && e.thd != thd)
            && (forall e :: e in l'.waiters ==> e in l.waiters)
            && (forall e :: e in l.owners && e.thd != thd ==> e in l'.owners)
  {
    RemoveMembers(alg, l, thd);
    RemoveSound(alg, l, thd);
    GrantMembers(alg, Remove(l, thd));
  }

  lemma {:induction false} ReversedMembers(es: seq<Entry>)
    ensures forall e :: e in Reversed(es) <==> e in es
  {
    if es != [] {
      ReversedMembers(es[1..]);
      assert es == [es[0]] + es[1..];
    }
  }

  // ------------------------------------------------------------ the invariant

  ghost predicate Justified(threads: seq<Thread>, x: nat, e: Entry) {
    && e.thd < |threads|
    && var th := threads[e.thd];
    && !th.Idle? && e.id == th.me.id && e.ts == th.me.ts
    && ((exists k :: 0 <= k < |th.acc| && th.acc[k].row == x && e.mode == ModeOf(th.acc[k].write))
        || (th.Asking? && th.row == x && e.mode == ModeOf(th.write)))
  }

  ghost predicate Waits(threads: seq<Thread>, x: nat, e: Entry) {
    && e.thd < |threads|
    && var th := threads[e.thd];
    && th.Asking? && th.row == x && e == EntryOf(e.thd, th.me, th.write)
  }

  ghost predicate RowInv(alg: Alg, threads: seq<Thread>, x: nat, l: Lock) {
    && Inv(alg, l)
    && (forall e :: e in l.owners ==> Justified(threads, x, e))
    && (forall e :: e in l.waiters ==> Waits(threads, x, e))
  }

  ghost predicate Owned(rows: seq<Row>, t: nat, me: Who, a: Access) {
    a.row < |rows| && EntryOf(t, me, a.write) in rows[a.row].lock.owners
  }

  ghost predicate ThreadInv(rows: seq<Row>, t: nat, th: Thread) {
    !th.Idle? ==>
      && (forall k :: 0 <= k < |th.acc| ==> Owned(rows, t, th.me, th.acc[k]))
      && (forall j, k :: 0 <= j < k < |th.acc| ==> th.acc[j].row != th.acc[k].row)
      && (th.Asking? ==>
            && th.row < |rows| && !Touches(th.acc, th.row)
            && (EntryOf(t, th.me, th.write) in rows[th.row].lock.owners || EntryOf(t, th.me, th.write) in rows[th.row].lock.waiters))
  }

  ghost predicate Unique(threads: seq<Thread>) {
    && (forall t, u :: 0 <= t < u < |threads| && !threads[t].Idle? && !threads[u].Idle? ==> threads[t].me.ts != threads[u].me.ts)
    && (forall t :: 0 <= t < |threads| && !threads[t].Idle? ==> threads[t].me.id % |threads| == t)
  }

  ghost predicate Locks(s: State) {
    && Unique(s.threads)
    && (forall x :: 0 <= x < |s.rows| ==> RowInv(s.alg, s.threads, x, s.rows[x].lock))
    && (forall t :: 0 <= t < |s.threads| ==> ThreadInv(s.rows, t, s.threads[t]))
  }

  predicate Uncommitted(th: Thread) { !th.Idle? && (th.Ending? ==> th.abort) }

  /** The thread has changed row `x` in place and neither committed nor undone it. */
  ghost predicate DirtyBy(th: Thread, x: nat) {
    && Uncommitted(th)
    && exists k :: 0 <= k < |th.acc| && th.acc[k].row == x && th.acc[k].write
                   && !(th.Ending? && th.restored && k == |th.acc| - 1)
  }

  ghost predicate Copies(db: Db, th: Thread) {
    Uncommitted(th) ==> forall k :: 0 <= k < |th.acc| ==> th.acc[k].row < |db| && th.acc[k].orig == db[th.acc[k].row]
  }

  /** A row holds its committed value, unless a transaction that owns it is changing it. */
  ghost predicate Stored(s: State, x: nat)
    requires x < |s.rows| && |s.rows| == |s.db|
  {
    s.rows[x].data == s.db[x] || exists t :: 0 <= t < |s.threads| && DirtyBy(s.threads[t], x)
  }

  ghost predicate Contents(s: State, db0: Db) {
    && |s.rows| == |s.db| == |db0|
    && (forall t :: 0 <= t < |s.threads| ==> Copies(s.db, s.threads[t]))
    && (forall x :: 0 <= x < |s.rows| ==> Stored(s, x))
    && Replays(db0, s.log) && Exec(db0, s.log) == s.db
  }

  ghost predicate SysInv(s: State, db0: Db) {
    Locks(s) && Contents(s, db0)
  }

  // ------------------------------------------------------------ locks

  /** A transaction that has or wants the row exclusively and owns it owns it alone. */
  lemma Exclusive(s: State, x: nat, e: Entry, o: Entry)
    requires Locks(s) && x < |s.rows|
    requires e in s.rows[x].lock.owners && o in s.rows[x].lock.owners && o.mode == Ex
    ensures e == o
  {
    assert Inv(s.alg, s.rows[x].lock);
  }

  /** Changing one thread in a way that keeps its accesses and what it asks for. */
  lemma ThreadOnly(s: State, s': State, t: nat)
    requires Locks(s) && t < |s.threads|
    requires s'.alg == s.alg && |s'.rows| == |s.rows| && |s'.threads| == |s.threads| && s'.threads == s.threads[t := s'.threads[t]]
    requires forall x :: 0 <= x < |s.rows| ==> s'.rows[x].lock == s.rows[x].lock
    requires !s.threads[t].Idle? && !s.threads[t].Asking? && !s'.threads[t].Idle? && !s'.threads[t].Asking?
    requires s.threads[t].me == s'.threads[t].me && s.threads[t].acc == s'.threads[t].acc
    ensures Locks(s')
  {
    hide RowInv, ThreadInv;
    forall x | 0 <= x < |s'.rows| ensures RowInv(s'.alg, s'.threads, x, s'.rows[x].lock) {
      SameEntries(s.alg, s.threads, s'.threads, t, x, s.rows[x].lock);
    }
    forall u | 0 <= u < |s'.threads| ensures ThreadInv(s'.rows, u, s'.threads[u]) {
      SameOwned(s.rows, s'.rows, u, s.threads[u], s'.threads[u]);
    }
  }

  lemma SameEntries(alg: Alg, a: seq<Thread>, b: seq<Thread>, t: nat, x: nat, l: Lock)
    requires RowInv(alg, a, x, l) && t < |a| && |b| == |a| && b == a[t := b[t]]
    requires !a[t].Idle? && !a[t].Asking? && !b[t].Idle? && !b[t].Asking? && a[t].me == b[t].me && a[t].acc == b[t].acc
    ensures RowInv(alg, b, x, l)
  {
    hide Inv;
    forall e | e in l.owners ensures Justified(b, x, e) { assert Justified(a, x, e); }
    forall e | e in l.waiters ensures Waits(b, x, e) { assert Waits(a, x, e); }
  }

  lemma SameOwned(a: seq<Row>, b: seq<Row>, u: nat, th: Thread, th': Thread)
    requires |b| == |a| && (forall x :: 0 <= x < |a| ==> b[x].lock == a[x].lock) && ThreadInv(a, u, th)
    requires th' == th || (!th.Idle? && !th.Asking? && !th'.Idle? && !th'.Asking? && th.me == th'.me && th.acc == th'.acc)
    ensures ThreadInv(b, u, th')
  {
    if !th.Idle? {
      forall k | 0 <= k < |th.acc| ensures Owned(b, u, th.me, th.acc[k]) { assert Owned(a, u, th.me, th.acc[k]); }
    }
  }

  lemma BeginKeepsLocks(s: State, s': State, t: nat, me: Who)
    requires Locks(s) && Begin(s, s', t, me)
    ensures Locks(s')
  {
    forall x | 0 <= x < |s'.rows| ensures RowInv(s'.alg, s'.threads, x, s'.rows[x].lock) {
      assert RowInv(s.alg, s.threads, x, s.rows[x].lock);
    }
    forall u | 0 <= u < |s'.threads| ensures ThreadInv(s'.rows, u, s'.threads[u]) {
      assert ThreadInv(s.rows, u, s.threads[u]);
    }
  }

  lemma FinishKeepsLocks(s: State, s': State, t: nat)
    requires Locks(s) && Finish(s, s', t)
    ensures Locks(s')
  {
    forall x | 0 <= x < |s'.rows| ensures RowInv(s'.alg, s'.threads, x, s'.rows[x].lock) {
      assert RowInv(s.alg, s.threads, x, s.rows[x].lock);
    }
    forall u | 0 <= u < |s'.threads| ensures ThreadInv(s'.rows, u, s'.threads[u]) {
      assert ThreadInv(s.rows, u, s.threads[u]);
    }
  }

  lemma RequestAdmissible(s: State, t: nat, x: nat, write: bool)
    requires Locks(s) && t < |s.threads| && x < |s.rows|
    requires s.threads[t].Running? && !Touches(s.threads[t].acc, x)
    ensures Admissible(s.alg, s.rows[x].lock, EntryOf(t, s.threads[t].me, write))
  {
    var l, th := s.rows[x].lock, s.threads[t];
    assert RowInv(s.alg, s.threads, x, l);
    forall i | 0 <= i < |l.owners| ensures l.owners[i].thd != t && l.owners[i].ts != th.me.ts {
      assert l.owners[i] in l.owners;
      assert Justified(s.threads, x, l.owners[i]);
    }
    forall i | 0 <= i < |l.waiters| ensures l.waiters[i].thd != t && l.waiters[i].ts != th.me.ts {
      assert l.waiters[i] in l.waiters;
      assert Waits(s.threads, x, l.waiters[i]);
    }
  }

  lemma RequestKeepsRow(s: State, s': State, t: nat, x: nat, write: bool, y: nat)
    requires Locks(s) && Request(s, s', t, x, write) && y < |s.rows|
    ensures RowInv(s'.alg, s'.threads, y, s'.rows[y].lock)
  {
    var th := s.threads[t];
    assert RowInv(s.alg, s.threads, y, s.rows[y].lock);
    var l, l', e := s.rows[y].lock, s'.rows[y].lock, EntryOf(t, th.me, write);
    if x == y {
      RequestAdmissible(s, t, x, write);
      GetKeeps(s.alg, l, e);
      GetMembers(s.alg, l, e);
    }
    forall o | o in l'.owners ensures Justified(s'.threads, y, o) {
      if o in l.owners { assert Justified(s.threads, y, o); }
    }
    forall o | o in l'.waiters ensures Waits(s'.threads, y, o) {
      if o in l.waiters { assert Waits(s.threads, y, o); }
    }
  }

  lemma RequestKeepsLocks(s: State, s': State, t: nat, x: nat, write: bool)
    requires Locks(s) && Request(s, s', t, x, write)
    ensures Locks(s')
  {
    hide RowInv, ThreadInv, Get;
    forall y | 0 <= y < |s'.rows| ensures RowInv(s'.alg, s'.threads, y, s'.rows[y].lock) {
      RequestKeepsRow(s, s', t, x, write, y);
    }
    forall u | 0 <= u < |s'.threads| ensures ThreadInv(s'.rows, u, s'.threads[u]) {
      RequestKeepsThread(s, s', t, x, write, u);
    }
  }

  lemma RequestKeepsThread(s: State, s': State, t: nat, x: nat, write: bool, u: nat)
    requires Request(s, s', t, x, write) && u < |s.threads| && ThreadInv(s.rows, u, s.threads[u])
    ensures ThreadInv(s'.rows, u, s'.threads[u])
  {
    hide Get;
    GetMembers(s.alg, s.rows[x].lock, EntryOf(t, s.threads[t].me, write));
    if !s.threads[u].Idle? {
      forall k | 0 <= k < |s.threads[u].acc| ensures Owned(s'.rows, u, s.threads[u].me, s.threads[u].acc[k]) {
        assert Owned(s.rows, u, s.threads[u].me, s.threads[u].acc[k]);
      }
    }
  }

  lemma ObtainKeepsLocks(s: State, s': State, t: nat)
    requires Locks(s) && Obtain(s, s', t)
    ensures Locks(s')
  {
    hide Inv, Sound, Get, Release, Has;
    var th := s.threads[t];
    OwnerOfThread(s, th.row, t);
    forall x | 0 <= x < |s'.rows| ensures RowInv(s'.alg, s'.threads, x, s'.rows[x].lock) {
      ObtainKeepsRow(s, s', t, x);
    }
    forall u | 0 <= u < |s'.threads| ensures ThreadInv(s'.rows, u, s'.threads[u]) {
      assert ThreadInv(s.rows, u, s.threads[u]);
      if u == t {
        var acc := s'.threads[t].acc;
        forall k | 0 <= k < |acc| ensures Owned(s'.rows, t, th.me, acc[k]) {
          if k < |th.acc| { assert Owned(s.rows, t, th.me, th.acc[k]); }
        }
      }
    }
  }

  lemma ObtainKeepsRow(s: State, s': State, t: nat, x: nat)
    requires Locks(s) && Obtain(s, s', t) && x < |s.rows|
    ensures RowInv(s'.alg, s'.threads, x, s'.rows[x].lock)
  {
    var l, th, th' := s.rows[x].lock, s.threads[t], s'.threads[t];
    assert RowInv(s.alg, s.threads, x, l);
    OwnerOfThread(s, th.row, t);
    forall o | o in l.owners ensures Justified(s'.threads, x, o) {
      assert Justified(s.threads, x, o);
      if o.thd == t {
        if th.row == x && o.mode == ModeOf(th.write) {
          assert th'.acc[|th.acc|].row == x;
        } else {
          var k :| 0 <= k < |th.acc| && th.acc[k].row == x && o.mode == ModeOf(th.acc[k].write);
          assert th'.acc[k] == th.acc[k];
        }
      }
    }
    forall o | o in l.waiters ensures Waits(s'.threads, x, o) {
      assert Waits(s.threads, x, o);
    }
  }

  /** The entry by which an asking thread owns the row is the one it asked for. */
  lemma OwnerOfThread(s: State, x: nat, t: nat)
    requires Locks(s) && x < |s.rows| && t < |s.threads| && Has(s.rows[x].lock.owners, t)
    requires s.threads[t].Asking? && s.threads[t].row == x
    ensures EntryOf(t, s.threads[t].me, s.threads[t].write) in s.rows[x].lock.owners
  {
    var l, th := s.rows[x].lock, s.threads[t];
    assert RowInv(s.alg, s.threads, x, l) && ThreadInv(s.rows, t, th);
    var o := l.owners[Find(l.owners, t)];
    assert o in l.owners && Justified(s.threads, x, o);
    assert o == EntryOf(t, th.me, th.write);
  }

  /** A thread leaves the row `x`: everybody else keeps what he has there. */
  lemma LeaveKeepsLocks(s: State, s': State, t: nat, x: nat)
    requires Locks(s) && t < |s.threads| && x < |s.rows|
    requires Has(s.rows[x].lock.owners, t) || Has(s.rows[x].lock.waiters, t)
    requires s'.alg == s.alg && |s'.threads| == |s.threads| && s'.threads == s.threads[t := s'.threads[t]]
    requires s'.rows == s.rows[x := Row(Release(s.rows[x].lock, t), s.rows[x].data)]
    requires !s.threads[t].Idle? && s'.threads[t].Ending? && s'.threads[t].me == s.threads[t].me
    requires s'.threads[t].acc <= s.threads[t].acc && !Touches(s'.threads[t].acc, x)
    requires forall k :: |s'.threads[t].acc| <= k < |s.threads[t].acc| ==> s.threads[t].acc[k].row == x
    requires s.threads[t].Asking? ==> s.threads[t].row == x
    ensures Locks(s')
  {
    assert RowInv(s.alg, s.threads, x, s.rows[x].lock);
    ReleaseMembers(s.alg, s.rows[x].lock, t);
    forall y | 0 <= y < |s'.rows| ensures RowInv(s'.alg, s'.threads, y, s'.rows[y].lock) {
      LeaveKeepsRow(s, s', t, x, y);
    }
    forall u | 0 <= u < |s'.threads| ensures ThreadInv(s'.rows, u, s'.threads[u]) {
      LeaveKeepsThread(s, s', t, x, u);
    }
  }

  /** An owner entry stays justified when the thread that leaves another row moves on. */
  lemma StaysJustified(a: seq<Thread>, b: seq<Thread>, t: nat, y: nat, o: Entry)
    requires t < |a| && |b| == |a| && b == a[t := b[t]] && Justified(a, y, o)
    requires o.thd == t ==>
               && !b[t].Idle? && b[t].me == a[t].me && b[t].acc <= a[t].acc && !(a[t].Asking? && a[t].row == y)
               && forall k :: |b[t].acc| <= k < |a[t].acc| ==> a[t].acc[k].row != y
    ensures Justified(b, y, o)
  {
    if o.thd == t {
      var k :| 0 <= k < |a[t].acc| && a[t].acc[k].row == y && o.mode == ModeOf(a[t].acc[k].write);
      assert b[t].acc[k] == a[t].acc[k];
    }
  }

  lemma WaiterJustified(a: seq<Thread>, b: seq<Thread>, t: nat, y: nat, o: Entry)
    requires t < |a| && |b| == |a| && b == a[t := b[t]] && Waits(a, y, o) && o.thd != t
    ensures Justified(b, y, o) && Waits(b, y, o)
  {
  }

  lemma LeaveKeepsRow(s: State, s': State, t: nat, x: nat, y: nat)
    requires Locks(s) && t < |s.threads| && x < |s.rows| && y < |s.rows|
    requires Has(s.rows[x].lock.owners, t) || Has(s.rows[x].lock.waiters, t)
    requires s'.alg == s.alg && |s'.threads| == |s.threads| && s'.threads == s.threads[t := s'.threads[t]]
    requires s'.rows == s.rows[x := Row(Release(s.rows[x].lock, t), s.rows[x].data)]
    requires !s.threads[t].Idle? && s'.threads[t].Ending? && s'.threads[t].me == s.threads[t].me
    requires s'.threads[t].acc <= s.threads[t].acc
    requires forall k :: |s'.threads[t].acc| <= k < |s.threads[t].acc| ==> s.threads[t].acc[k].row == x
    requires s.threads[t].Asking? ==> s.threads[t].row == x
    ensures RowInv(s'.alg, s'.threads, y, s'.rows[y].lock)
  {
    hide ThreadInv, Unique, Release, Has, Justified, Waits, Inv, Sound;
    var l, l' := s.rows[y].lock, s'.rows[y].lock;
    assert RowInv(s.alg, s.threads, y, l);
    if x == y {
      InvIsSound(s.alg, l);
      ReleaseMembers(s.alg, l, t);
    }
    forall o | o in l'.owners ensures Justified(s'.threads, y, o) {
      if o in l.owners {
        StaysJustified(s.threads, s'.threads, t, y, o);
      } else {
        WaiterJustified(s.threads, s'.threads, t, y, o);
      }
    }
    forall o | o in l'.waiters ensures Waits(s'.threads, y, o) {
      WaiterIsNot(s.threads, t, x, y, o);
      WaiterJustified(s.threads, s'.threads, t, y, o);
    }
  }

  lemma InvIsSound(alg: Alg, l: Lock)
    requires Inv(alg, l)
    ensures Sound(alg, l)
  {
  }

  /** Whoever waits for one row waits for no other. */
  lemma WaiterIsNot(threads: seq<Thread>, t: nat, x: nat, y: nat, o: Entry)
    requires t < |threads| && Waits(threads, y, o) && (threads[t].Asking? ==> threads[t].row == x)
    ensures x != y ==> o.thd != t
  {
  }

  lemma LeaveKeepsThread(s: State, s': State, t: nat, x: nat, u: nat)
    requires Locks(s) && t < |s.threads| && u < |s.threads| && x < |s.rows|
    requires Has(s.rows[x].lock.owners, t) || Has(s.rows[x].lock.waiters, t)
    requires |s'.threads| == |s.threads| && s'.threads == s.threads[t := s'.threads[t]]
    requires s'.rows == s.rows[x := Row(Release(s.rows[x].lock, t), s.rows[x].data)]
    requires !s.threads[t].Idle? && s'.threads[t].Ending? && s'.threads[t].me == s.threads[t].me
    requires s'.threads[t].acc <= s.threads[t].acc && !Touches(s'.threads[t].acc, x)
    ensures ThreadInv(s'.rows, u, s'.threads[u])
  {
    assert ThreadInv(s.rows, u, s.threads[u]) && RowInv(s.alg, s.threads, x, s.rows[x].lock);
    ReleaseMembers(s.alg, s.rows[x].lock, t);
    var th := s'.threads[u];
    if !th.Idle? {
      forall k | 0 <= k < |th.acc| ensures Owned(s'.rows, u, th.me, th.acc[k]) {
        assert th.acc[k] == s.threads[u].acc[k];
        assert Owned(s.rows, u, th.me, s.threads[u].acc[k]);
        if u == t { assert th.acc[k].row != x; }
      }
    }
  }

  lemma StepKeepsLocks(s: State, s': State, t: nat)
    requires Locks(s) && Step(s, s', t)
    ensures Locks(s')
  {
    hide Locks, Get, Release, Apply, TxnOf;
    if me :| Begin(s, s', t, me) { BeginKeepsLocks(s, s', t, me); }
    else if x, w :| Request(s, s', t, x, w) { RequestKeepsLocks(s, s', t, x, w); }
    else if Obtain(s, s', t) { ObtainKeepsLocks(s, s', t); }
    else if GiveUp(s, s', t) { GiveUpKeepsLocks(s, s', t); }
    else if k, v :| Write(s, s', t, k, v) { ThreadOnly(s, s', t); }
    else if Rollback(s, s', t) || Commit(s, s', t) || Undo(s, s', t) { ThreadOnly(s, s', t); }
    else if Drop(s, s', t) { DropKeepsLocks(s, s', t); }
    else { FinishKeepsLocks(s, s', t); }
  }

  lemma GiveUpKeepsLocks(s: State, s': State, t: nat)
    requires Locks(s) && GiveUp(s, s', t)
    ensures Locks(s')
  {
    assert ThreadInv(s.rows, t, s.threads[t]);
    LeaveKeepsLocks(s, s', t, s.threads[t].row);
  }

  lemma DropKeepsLocks(s: State, s': State, t: nat)
    requires Locks(s) && Drop(s, s', t)
    ensures Locks(s')
  {
    assert ThreadInv(s.rows, t, s.threads[t]);
    var acc := s.threads[t].acc;
    LeaveKeepsLocks(s, s', t, acc[|acc| - 1].row);
  }

  // ------------------------------------------------------------ contents

  /** Whoever owns a row and is not changing it finds its committed value. */
  lemma OwnedIsCommitted(s: State, t: nat, x: nat, write: bool, db0: Db)
    requires SysInv(s, db0) && t < |s.threads| && x < |s.rows| && !s.threads[t].Idle?
    requires EntryOf(t, s.threads[t].me, write) in s.rows[x].lock.owners && !DirtyBy(s.threads[t], x)
    ensures s.rows[x].data == s.db[x]
  {
    assert Stored(s, x);
    if u :| 0 <= u < |s.threads| && DirtyBy(s.threads[u], x) {
      var acc := s.threads[u].acc;
      var k :| 0 <= k < |acc| && acc[k].row == x && acc[k].write;
      assert ThreadInv(s.rows, u, s.threads[u]);
      assert Owned(s.rows, u, s.threads[u].me, acc[k]);
      Exclusive(s, x, EntryOf(t, s.threads[t].me, write), EntryOf(u, s.threads[u].me, true));
    }
  }

  /** A step of one thread that changes no contents. */
  lemma ContentsFrame(s: State, s': State, t: nat, db0: Db)
    requires Contents(s, db0) && t < |s.threads|
    requires |s'.threads| == |s.threads| && s'.threads == s.threads[t := s'.threads[t]]
    requires |s'.rows| == |s.rows| && s'.db == s.db && s'.log == s.log
    requires forall x :: 0 <= x < |s.rows| ==> s'.rows[x].data == s.rows[x].data
    requires Copies(s.db, s'.threads[t])
    requires forall x :: DirtyBy(s.threads[t], x) ==> DirtyBy(s'.threads[t], x)
    ensures Contents(s', db0)
  {
    forall x | 0 <= x < |s'.rows| ensures Stored(s', x) {
      assert Stored(s, x);
      if s.rows[x].data != s.db[x] {
        var u :| 0 <= u < |s.threads| && DirtyBy(s.threads[u], x);
        assert DirtyBy(s'.threads[u], x);
      }
    }
    forall u | 0 <= u < |s'.threads| ensures Copies(s'.db, s'.threads[u]) {
      assert Copies(s.db, s.threads[u]);
    }
  }

  lemma ObtainKeepsContents(s: State, s': State, t: nat, db0: Db)
    requires SysInv(s, db0) && Obtain(s, s', t)
    ensures Contents(s', db0)
  {
    hide Replays, Exec, Stored, Unique, RowInv;
    var th, acc := s.threads[t], s'.threads[t].acc;
    OwnerOfThread(s, th.row, t);
    assert ThreadInv(s.rows, t, th) && Copies(s.db, th);
    OwnedIsCommitted(s, t, th.row, th.write, db0);
    forall x | DirtyBy(th, x) ensures DirtyBy(s'.threads[t], x) {
      var k :| 0 <= k < |th.acc| && th.acc[k].row == x && th.acc[k].write;
      assert acc[k] == th.acc[k];
    }
    ContentsFrame(s, s', t, db0);
  }

  lemma DropKeepsContents(s: State, s': State, t: nat, db0: Db)
    requires SysInv(s, db0) && Drop(s, s', t)
    ensures Contents(s', db0)
  {
    hide Locks, Replays, Exec, Stored, Release, Has;
    var th, th' := s.threads[t], s'.threads[t];
    assert Copies(s.db, th);
    forall x | DirtyBy(th, x) ensures DirtyBy(th', x) {
      var k :| 0 <= k < |th.acc| && th.acc[k].row == x && th.acc[k].write && !(th.restored && k == |th.acc| - 1);
      assert th'.acc[k] == th.acc[k];
    }
    ContentsFrame(s, s', t, db0);
  }

  lemma WriteKeepsContents(s: State, s': State, t: nat, k: nat, v: Val, db0: Db)
    requires SysInv(s, db0) && Write(s, s', t, k, v)
    ensures Contents(s', db0)
  {
    forall x | 0 <= x < |s'.rows| ensures Stored(s', x) {
      assert Stored(s, x);
      if x == s.threads[t].acc[k].row { assert DirtyBy(s'.threads[t], x); }
    }
  }

  /** The copy that is restored is the committed value. */
  lemma UndoRestores(s: State, s': State, t: nat, db0: Db)
    requires SysInv(s, db0) && Undo(s, s', t)
    ensures var a := s.threads[t].acc[|s.threads[t].acc| - 1]; s'.rows[a.row].data == s.db[a.row]
    ensures forall y :: DirtyBy(s.threads[t], y) && y != s.threads[t].acc[|s.threads[t].acc| - 1].row ==> DirtyBy(s'.threads[t], y)
    ensures Copies(s.db, s'.threads[t])
  {
    hide Locks, Replays, Exec, Stored;
    assert Copies(s.db, s.threads[t]);
  }

  lemma UndoKeepsContents(s: State, s': State, t: nat, db0: Db)
    requires SysInv(s, db0) && Undo(s, s', t)
    ensures Contents(s', db0)
  {
    hide Locks, Replays, Exec, DirtyBy, Copies;
    UndoRestores(s, s', t, db0);
    forall x | 0 <= x < |s'.rows| ensures Stored(s', x) {
      assert Stored(s, x);
      if x != s.threads[t].acc[|s.threads[t].acc| - 1].row && s.rows[x].data != s.db[x] {
        var u :| 0 <= u < |s.threads| && DirtyBy(s.threads[u], x);
        assert DirtyBy(s'.threads[u], x);
      }
    }
    forall u | 0 <= u < |s'.threads| ensures Copies(s'.db, s'.threads[u]) {
      assert Copies(s.db, s.threads[u]);
    }
  }

  /** The rows a committing transaction writes are nobody else's. */
  lemma CommitKeepsCopies(s: State, s': State, t: nat, u: nat, db0: Db)
    requires SysInv(s, db0) && Commit(s, s', t) && u < |s.threads|
    ensures Copies(s'.db, s'.threads[u])
  {
    assert Copies(s.db, s.threads[u]);
    if u != t && Uncommitted(s.threads[u]) {
      var acc, mine := s.threads[u].acc, s.threads[t].acc;
      assert ThreadInv(s.rows, u, s.threads[u]) && ThreadInv(s.rows, t, s.threads[t]);
      forall k | 0 <= k < |acc| ensures !Overwrites(mine, acc[k].row) {
        if j :| 0 <= j < |mine| && mine[j].row == acc[k].row && mine[j].write {
          assert Owned(s.rows, u, s.threads[u].me, acc[k]) && Owned(s.rows, t, s.threads[t].me, mine[j]);
          Exclusive(s, acc[k].row, EntryOf(u, s.threads[u].me, acc[k].write), EntryOf(t, s.threads[t].me, true));
        }
      }
    }
  }

  lemma CommitKeepsStored(s: State, s': State, t: nat, x: nat, db0: Db)
    requires SysInv(s, db0) && Commit(s, s', t) && x < |s.rows|
    ensures |s'.rows| == |s'.db| && Stored(s', x)
  {
    assert Stored(s, x);
    if !Overwrites(s.threads[t].acc, x) && s.rows[x].data != s.db[x] {
      var u :| 0 <= u < |s.threads| && DirtyBy(s.threads[u], x);
      assert DirtyBy(s'.threads[u], x);
    }
  }

  lemma CommitIsLegal(s: State, s': State, t: nat, db0: Db)
    requires SysInv(s, db0) && Commit(s, s', t)
    ensures Replays(db0, s'.log) && Exec(db0, s'.log) == s'.db
  {
    var txn := TxnOf(s.rows, s.threads[t].acc, |s.log|);
    assert Copies(s.db, s.threads[t]);
    assert s'.log[..|s.log|] == s.log && s'.log[|s.log|] == txn;
    assert Legal(s.db, txn);
  }

  lemma CommitKeepsContents(s: State, s': State, t: nat, db0: Db)
    requires SysInv(s, db0) && Commit(s, s', t)
    ensures Contents(s', db0)
  {
    CommitIsLegal(s, s', t, db0);
    forall x | 0 <= x < |s'.rows| ensures Stored(s', x) {
      CommitKeepsStored(s, s', t, x, db0);
    }
    forall u | 0 <= u < |s'.threads| ensures Copies(s'.db, s'.threads[u]) {
      CommitKeepsCopies(s, s', t, u, db0);
    }
  }

  lemma AskKeepsContents(s: State, s': State, t: nat, db0: Db)
    requires Contents(s, db0)
    requires (exists me :: Begin(s, s', t, me)) || (exists x, w :: Request(s, s', t, x, w)) || Finish(s, s', t)
    ensures Contents(s', db0)
  {
    assert Copies(s.db, s.threads[t]);
    ContentsFrame(s, s', t, db0);
  }

  lemma EndKeepsContents(s: State, s': State, t: nat, db0: Db)
    requires Contents(s, db0) && (GiveUp(s, s', t) || Rollback(s, s', t))
    ensures Contents(s', db0)
  {
    assert Copies(s.db, s.threads[t]);
    ContentsFrame(s, s', t, db0);
  }

  lemma StepKeepsContents(s: State, s': State, t: nat, db0: Db)
    requires SysInv(s, db0) && Step(s, s', t)
    ensures Contents(s', db0)
  {
    if Obtain(s, s', t) { ObtainKeepsContents(s, s', t, db0); }
    else if k, v :| Write(s, s', t, k, v) { WriteKeepsContents(s, s', t, k, v, db0); }
    else if Commit(s, s', t) { CommitKeepsContents(s, s', t, db0); }
    else if Undo(s, s', t) { UndoKeepsContents(s, s', t, db0); }
    else if Drop(s, s', t) { DropKeepsContents(s, s', t, db0); }
    else if GiveUp(s, s', t) || Rollback(s, s', t) { EndKeepsContents(s, s', t, db0); }
    else { AskKeepsContents(s, s', t, db0); }
  }

  lemma StepKeeps(s: State, s': State, t: nat, db0: Db)
    requires SysInv(s, db0) && Step(s, s', t)
    ensures SysInv(s', db0)
  {
    StepKeepsLocks(s, s', t);
    StepKeepsContents(s, s', t, db0);
  }

  lemma InitInv(s: State, db: Db)
    requires Init(s, db)
    ensures SysInv(s, db)
  {
    forall x | 0 <= x < |s.rows| ensures Stored(s, x) && RowInv(s.alg, s.threads, x, s.rows[x].lock) {}
  }

  lemma {:induction false} RunInv(run: seq<State>, who: seq<nat>, db: Db)
    requires Run(run, who, db)
    ensures SysInv(run[|run| - 1], db)
  {
    if |run| == 1 {
      InitInv(run[0], db);
    } else {
      var n := |run| - 2;
      assert Step(run[n], run[n + 1], who[n]);
      RunInv(run[..n + 1], who[..n], db);
      StepKeeps(run[n], run[n + 1], who[n], db);
    }
  }

  // ------------------------------------------------------------ what the log reports

  lemma BodiesDistinct(s: State, t: nat)
    requires Locks(s) && t < |s.threads| && !s.threads[t].Idle?
    ensures DistinctRows(s.threads[t].acc)
    ensures s.threads[t].Asking? ==> !Touches(s.threads[t].acc, s.threads[t].row)
  {
    hide RowInv, Unique;
    assert ThreadInv(s.rows, t, s.threads[t]);
  }

  /** The data of a row changes only in the hands of a transaction that writes it. */
  lemma DataChanges(s: State, s': State, t: nat, x: nat)
    requires t < |s.threads| && Step(s, s', t) && x < |s.rows|
    ensures |s'.rows| == |s.rows|
    ensures s'.rows[x].data == s.rows[x].data
            || (!s.threads[t].Idle? && exists k :: 0 <= k < |s.threads[t].acc| && s.threads[t].acc[k].row == x && s.threads[t].acc[k].write)
  {
    hide Get, Release, Apply, TxnOf;
  }

  /** What one transaction has taken for writing no other one changes. */
  lemma OthersUndisturbed(s: State, s': State, t: nat, u: nat, a: Account)
    requires Locks(s) && t < |s.threads| && Step(s, s', t) && u < |s.threads| && u != t && s'.threads[u] == s.threads[u]
    requires Accounted(s.rows, s.threads[u], a)
    ensures Accounted(s'.rows, s'.threads[u], a)
  {
    hide Step, Touches, Overwrites, RowInv, Unique;
    var th := s.threads[u];
    if th.Running? || th.Asking? {
      SameRows(s, s', t);
      forall k | 0 <= k < |th.acc| && th.acc[k].write ensures s'.rows[th.acc[k].row].data == s.rows[th.acc[k].row].data {
        var x := th.acc[k].row;
        DataChanges(s, s', t, x);
        if j :| !s.threads[t].Idle? && 0 <= j < |s.threads[t].acc| && s.threads[t].acc[j].row == x && s.threads[t].acc[j].write {
          NotBoth(s, t, u, j, k);
        }
      }
      SameData(s.rows, s'.rows, th.acc, a);
    }
  }

  lemma SameRows(s: State, s': State, t: nat)
    requires Step(s, s', t)
    ensures |s'.rows| == |s.rows|
  {
    hide Get, Release, Apply, TxnOf;
  }

  /** No two transactions have taken the same row for writing. */
  lemma NotBoth(s: State, t: nat, u: nat, j: nat, k: nat)
    requires Locks(s) && t < |s.threads| && u < |s.threads| && t != u && !s.threads[t].Idle? && !s.threads[u].Idle?
    requires j < |s.threads[t].acc| && k < |s.threads[u].acc| && s.threads[t].acc[j].write && s.threads[u].acc[k].write
    ensures s.threads[t].acc[j].row != s.threads[u].acc[k].row
  {
    hide RowInv, Unique;
    var x := s.threads[t].acc[j].row;
    if x == s.threads[u].acc[k].row {
      assert ThreadInv(s.rows, t, s.threads[t]) && ThreadInv(s.rows, u, s.threads[u]);
      assert Owned(s.rows, t, s.threads[t].me, s.threads[t].acc[j]) && Owned(s.rows, u, s.threads[u].me, s.threads[u].acc[k]);
      Exclusive(s, x, EntryOf(t, s.threads[t].me, true), EntryOf(u, s.threads[u].me, true));
    }
  }

  lemma StartsBlank(s: State, db: Db)
    requires Init(s, db)
    ensures forall t :: 0 <= t < |s.threads| ==> Accounted(s.rows, s.threads[t], BLANK)
  {
  }

  lemma HasLocks(s: State, db: Db)
    requires SysInv(s, db)
    ensures Locks(s)
  {
  }

  /** Over every run, the accesses of every thread say what its body has been given and has set,
      and so does the log for the transactions that have committed. */
  lemma {:induction false} RunReports(run: seq<State>, who: seq<nat>, db: Db)
    requires Run(run, who, db)
    ensures Reports(run[|run| - 1].log, Books(DeedsOf(run, who)))
    ensures forall t :: 0 <= t < |run[|run| - 1].threads| ==>
              Accounted(run[|run| - 1].rows, run[|run| - 1].threads[t], AccountOf(DeedsOf(run, who), t))
  {
    hide SysInv, Locks, Step, Accounted, DeedOf, Books, AccountOf, IsReport;
    if |run| == 1 {
      StartsBlank(run[0], db);
      NoDeeds();
    } else {
      var n := |run| - 2;
      var s, s', t, deeds := run[n], run[n + 1], who[n], DeedsOf(run[..n + 1], who[..n]);
      assert Step(s, s', t);
      RunReports(run[..n + 1], who[..n], db);
      RunInv(run[..n + 1], who[..n], db);
      HasLocks(s, db);
      StepActs(s, s', t);
      if !s.threads[t].Idle? { BodiesDistinct(s, t); }
      StepReports(s, s', t, AccountOf(deeds, t));
      forall u | 0 <= u < |s.threads| && u != t ensures Accounted(s'.rows, s'.threads[u], AccountOf(deeds, u)) {
        OthersUndisturbed(s, s', t, u, AccountOf(deeds, u));
      }
      DeedsGrow(run, who);
      NextDeed(deeds, t, DeedOf(s, s', t));
      NextReports(deeds, t, DeedOf(s, s', t), s.log, s'.log);
    }
  }

  /** Serializability.  After any run, the log reports all that the bodies of the committed
      transactions have been given and have set; replaying them one after the other in the order of
      their commits returns exactly these values; and whatever has aborted or is still running has
      left no trace in the result: a row that no live transaction is changing in place holds
      exactly that result. */
  lemma Serializable(run: seq<State>, who: seq<nat>, db: Db)
    requires Run(run, who, db)
    ensures var s := run[|run| - 1];
      && Reports(s.log, Books(DeedsOf(run, who)))
      && |s.rows| == |db| && Replays(db, s.log)
      && forall x :: 0 <= x < |db| && (forall t :: 0 <= t < |s.threads| ==> !DirtyBy(s.threads[t], x)) ==>
           s.rows[x].data == Exec(db, s.log)[x]
  {
    RunInv(run, who, db);
    RunReports(run, who, db);
    var s := run[|run| - 1];
    forall x | 0 <= x < |db| && forall t :: 0 <= t < |s.threads| ==> !DirtyBy(s.threads[t], x)
      ensures s.rows[x].data == Exec(db, s.log)[x]
    {
      assert Stored(s, x);
    }
  }

  /** A row that is only read does not change under its reader. */
  lemma ReadsRepeat(run: seq<State>, who: seq<nat>, db: Db, t: nat, k: nat)
    requires Run(run, who, db)
    requires var s := run[|run| - 1];
             t < |s.threads| && Uncommitted(s.threads[t]) && k < |s.threads[t].acc| && !s.threads[t].acc[k].write
    ensures var s := run[|run| - 1];
            var a := s.threads[t].acc[k];
            a.row < |s.rows| && s.rows[a.row].data == a.orig
  {
    RunInv(run, who, db);
    var s := run[|run| - 1];
    var a := s.threads[t].acc[k];
    assert ThreadInv(s.rows, t, s.threads[t]) && Copies(s.db, s.threads[t]);
    assert Owned(s.rows, t, s.threads[t].me, a);
    OwnedIsCommitted(s, t, a.row, false, db);
  }
}
