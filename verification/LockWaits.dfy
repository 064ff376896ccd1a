/** Who waits for whom under two-phase locking.  With timestamps the waits can never close
    into a circle; with deadlock detection whoever waits has been told for whom. */
module LockWaits {
  import opened Serial
  import opened LockTable
  import opened TwoPhase
  import opened TwoPhaseProof

  ghost predicate Waiting(s: State, t: nat) {
    t < |s.threads| && s.threads[t].Asking? && s.threads[t].row < |s.rows| && Has(s.rows[s.threads[t].row].lock.waiters, t)
  }

  /** The waiting thread `t` cannot go on before `u` has left: `u` owns the row in a
      conflicting mode, or waits for it in one and will be served first. */
  ghost predicate Blocks(s: State, u: nat, t: nat) {
    && Waiting(s, t)
    && var l := s.rows[s.threads[t].row].lock;
    && var mode := ModeOf(s.threads[t].write);
    && ((exists i :: 0 <= i < |l.owners| && l.owners[i].thd == u && Conflict(mode, l.owners[i].mode))
        || (exists i :: 0 <= i < Find(l.waiters, t) && l.waiters[i].thd == u && Conflict(mode, l.waiters[i].mode)))
  }

  ghost predicate Active(s: State, t: nat) { t < |s.threads| && !s.threads[t].Idle? }

  // ------------------------------------------------------------ waits by timestamp

  /** A transaction only ever waits for transactions with a later timestamp. */
  lemma WaitsForLater(s: State, u: nat, t: nat)
    requires Locks(s) && s.alg == WaitDie && Blocks(s, u, t)
    ensures Active(s, u) && s.threads[u].me.ts > s.threads[t].me.ts
  {
    var x := s.threads[t].row;
    var l := s.rows[x].lock;
    assert RowInv(s.alg, s.threads, x, l);
    var k := Find(l.waiters, t);
    assert l.waiters[k] in l.waiters && Waits(s.threads, x, l.waiters[k]);
    if i :| 0 <= i < |l.owners| && l.owners[i].thd == u {
      assert l.owners[i] in l.owners && Justified(s.threads, x, l.owners[i]);
    } else {
      var i :| 0 <= i < k && l.waiters[i].thd == u;
      assert l.waiters[i] in l.waiters && Waits(s.threads, x, l.waiters[i]);
    }
  }

  ghost predicate Chain(s: State, p: seq<nat>) {
    forall i :: 0 < i < |p| ==> Blocks(s, p[i], p[i - 1])
  }

  lemma {:induction false} ChainGrows(s: State, p: seq<nat>, n: nat)
    requires Locks(s) && s.alg == WaitDie && Chain(s, p) && 0 < n < |p|
    ensures Active(s, p[0]) && Active(s, p[n]) && s.threads[p[n]].me.ts > s.threads[p[0]].me.ts
  {
    WaitsForLater(s, p[n], p[n - 1]);
    if n > 1 { ChainGrows(s, p, n - 1); }
  }

  /** No circle of waits, over any number of rows. */
  lemma NoCircle(run: seq<State>, who: seq<nat>, db: Db, p: seq<nat>)
    requires Run(run, who, db) && run[|run| - 1].alg == WaitDie
    requires |p| > 1 && Chain(run[|run| - 1], p)
    ensures p[|p| - 1] != p[0]
  {
    RunInv(run, who, db);
    ChainGrows(run[|run| - 1], p, |p| - 1);
  }

  lemma {:induction false} LatestOf(s: State, n: nat) returns (t: nat)
    requires n <= |s.threads| && exists u :: 0 <= u < n && Active(s, u)
    ensures t < n && Active(s, t)
    ensures forall u :: 0 <= u < n && Active(s, u) ==> s.threads[u].me.ts <= s.threads[t].me.ts
  {
    if exists u :: 0 <= u < n - 1 && Active(s, u) {
      t := LatestOf(s, n - 1);
      if Active(s, n - 1) && s.threads[n - 1].me.ts > s.threads[t].me.ts { t := n - 1; }
    } else {
      t := n - 1;
    }
  }

  /** Every waiter is blocked by somebody. */
  lemma WaiterHasBlocker(s: State, t: nat) returns (u: nat)
    requires Locks(s) && Waiting(s, t)
    ensures Blocks(s, u, t)
  {
    var x := s.threads[t].row;
    var l := s.rows[x].lock;
    assert RowInv(s.alg, s.threads, x, l);
    var k := Find(l.waiters, t);
    assert l.waiters[k] in l.waiters && Waits(s.threads, x, l.waiters[k]);
    var id := WaiterIsBlocked(s.alg, l, k);
    if i :| 0 <= i < |l.owners| && l.owners[i].id == id && Conflict(l.waiters[k].mode, l.owners[i].mode) {
      u := l.owners[i].thd;
    } else {
      var i :| 0 <= i < k && l.waiters[i].id == id && Conflict(l.waiters[k].mode, l.waiters[i].mode);
      u := l.waiters[i].thd;
    }
  }

  /** A transaction that does not wait for a lock can always take its next step. */
  lemma NotWaitingCanStep(s: State, t: nat) returns (s': State)
    requires Locks(s) && Active(s, t) && !Waiting(s, t)
    ensures Step(s, s', t)
  {
    var th := s.threads[t];
    assert ThreadInv(s.rows, t, th);
    if th.Running? {
      s' := SetThread(s, t, Ending(th.me, th.acc, true, false));
      assert Rollback(s, s', t);
    } else if th.Asking? {
      var l := s.rows[th.row].lock;
      MemberHas(l.owners, EntryOf(t, th.me, th.write));
      MemberHas(l.waiters, EntryOf(t, th.me, th.write));
      s' := SetThread(s, t, Running(th.me, th.acc + [Access(th.row, th.write, s.rows[th.row].data)]));
      assert Obtain(s, s', t);
    } else if th.acc == [] {
      s' := SetThread(s, t, Idle);
      assert Finish(s, s', t);
    } else {
      var a := th.acc[|th.acc| - 1];
      assert Owned(s.rows, t, th.me, a);
      MemberHas(s.rows[a.row].lock.owners, EntryOf(t, th.me, a.write));
      if th.abort && a.write && !th.restored {
        s' := SetBoth(s, t, Ending(th.me, th.acc, true, true), a.row, Row(s.rows[a.row].lock, a.orig));
        assert Undo(s, s', t);
      } else {
        var r := s.rows[a.row];
        s' := SetBoth(s, t, Ending(th.me, th.acc[..|th.acc| - 1], th.abort, false), a.row, Row(Release(r.lock, t), r.data));
        assert Drop(s, s', t);
      }
    }
  }

  lemma MemberHas(es: seq<Entry>, e: Entry)
    ensures e in es ==> Has(es, e.thd)
  {
  }

  /** No deadlock: whenever transactions are active, the one with the latest timestamp waits
      for nobody and can go on. */
  lemma WaitDieProgress(run: seq<State>, who: seq<nat>, db: Db, some: nat) returns (t: nat, s': State)
    requires Run(run, who, db) && run[|run| - 1].alg == WaitDie
    requires Active(run[|run| - 1], some)
    ensures Active(run[|run| - 1], t) && !Waiting(run[|run| - 1], t) && Step(run[|run| - 1], s', t)
  {
    RunInv(run, who, db);
    var s := run[|run| - 1];
    t := LatestOf(s, |s.threads|);
    if Waiting(s, t) {
      var u := WaiterHasBlocker(s, t);
      WaitsForLater(s, u, t);
    }
    s' := NotWaitingCanStep(s, t);
  }

  // ------------------------------------------------------------ recorded waits

  /** Whoever blocks a waiting transaction is among those it was told about. */
  ghost predicate Informed(s: State, t: nat) {
    Waiting(s, t) ==>
      var l := s.rows[s.threads[t].row].lock;
      forall id :: BlockedBy(l, Find(l.waiters, t), ModeOf(s.threads[t].write), id) ==> id in s.threads[t].told
  }

  lemma {:induction false} FindFrom(es: seq<Entry>, n: nat, thd: nat)
    requires n <= |es| && Has(es[n..], thd)
    requires forall i, j :: 0 <= i < j < |es| ==> es[i].thd != es[j].thd
    ensures Find(es, thd) == n + Find(es[n..], thd)
  {
    var k := Find(es[n..], thd);
    assert es[n..][k] == es[n + k];
  }

  lemma FindWithout(es: seq<Entry>, j: nat, thd: nat)
    requires j < |es| && Has(Without(es, j), thd)
    requires forall i, k :: 0 <= i < k < |es| ==> es[i].thd != es[k].thd
    ensures Find(es, thd) == if Find(Without(es, j), thd) < j then Find(Without(es, j), thd) else Find(Without(es, j), thd) + 1
  {
    var w, k := Without(es, j), Find(Without(es, j), thd);
    assert forall i :: 0 <= i < |w| ==> w[i] == if i < j then es[i] else es[i + 1];
    assert (if k < j then es[k] else es[k + 1]).thd == thd;
  }

  /** Nobody gets ahead of a waiter when others leave. */
  lemma RemoveAhead(l: Lock, u: nat, t: nat, mode: Mode, id: nat)
    requires Apart(l) && (Has(l.owners, u) || Has(l.waiters, u)) && Has(Remove(l, u).waiters, t)
    requires BlockedBy(Remove(l, u), Find(Remove(l, u).waiters, t), mode, id)
    ensures BlockedBy(l, Find(l.waiters, t), mode, id)
  {
    hide Conflict, Find;
    var m, k := Remove(l, u), Find(Remove(l, u).waiters, t);
    if Has(l.owners, u) {
      var j := Find(l.owners, u);
      if i :| 0 <= i < |m.owners| && m.owners[i].id == id && Conflict(mode, m.owners[i].mode) {
        assert m.owners[i] == l.owners[if i < j then i else i + 1];
      }
    } else {
      var j := Find(l.waiters, u);
      FindWithout(l.waiters, j, t);
      if i :| 0 <= i < k && m.waiters[i].id == id && Conflict(mode, m.waiters[i].mode) {
        assert m.waiters[i] == l.waiters[if i < j then i else i + 1];
      }
    }
  }

  lemma MovedAhead(l: Lock, g: Lock, n: nat, k: nat, mode: Mode, id: nat)
    requires n + k <= |l.waiters|
    requires g.owners == Reversed(l.waiters[..n]) + l.owners && g.waiters == l.waiters[n..]
    requires BlockedBy(g, k, mode, id)
    ensures BlockedBy(l, n + k, mode, id)
  {
    var r := Reversed(l.waiters[..n]);
    if i :| 0 <= i < |g.owners| && g.owners[i].id == id && Conflict(mode, g.owners[i].mode) {
      if i < n { assert g.owners[i] == r[i] == l.waiters[n - 1 - i]; } else { assert g.owners[i] == l.owners[i - n]; }
    } else {
      var i :| 0 <= i < k && g.waiters[i].id == id && Conflict(mode, g.waiters[i].mode);
      assert l.waiters[n + i] == g.waiters[i];
    }
  }

  lemma GrantAhead(alg: Alg, l: Lock, t: nat, mode: Mode, id: nat)
    requires Sound(alg, l) && Has(Grant(l).waiters, t)
    requires BlockedBy(Grant(l), Find(Grant(l).waiters, t), mode, id)
    ensures BlockedBy(l, Find(l.waiters, t), mode, id)
  {
    var n := GrantKeeps(alg, l);
    FindFrom(l.waiters, n, t);
    MovedAhead(l, Grant(l), n, Find(Grant(l).waiters, t), mode, id);
  }

  lemma ReleaseAhead(alg: Alg, l: Lock, u: nat, t: nat, mode: Mode, id: nat)
    requires Sound(alg, l) && (Has(l.owners, u) || Has(l.waiters, u)) && Has(Release(l, u).waiters, t)
    requires BlockedBy(Release(l, u), Find(Release(l, u).waiters, t), mode, id)
    ensures Has(l.waiters, t) && BlockedBy(l, Find(l.waiters, t), mode, id)
  {
    var m := Remove(l, u);
    RemoveSound(alg, l, u);
    ReleaseMembers(alg, l, u);
    var e := Release(l, u).waiters[Find(Release(l, u).waiters, t)];
    assert e in Release(l, u).waiters;
    MemberHas(l.waiters, e);
    GrantMembers(alg, m);
    MemberHas(m.waiters, e);
    GrantAhead(alg, m, t, mode, id);
    RemoveAhead(l, u, t, mode, id);
  }

  lemma RequestInforms(s: State, s': State, u: nat, x: nat, write: bool, t: nat)
    requires Locks(s) && s.alg == DlDetect && Request(s, s', u, x, write)
    requires t < |s.threads| && Informed(s, t)
    ensures Informed(s', t)
  {
    hide Inv, ThreadInv, Justified, RowInv, Waits, Unique;
    var l, l', e := s.rows[x].lock, s'.rows[x].lock, EntryOf(u, s.threads[u].me, write);
    RequestAdmissible(s, u, x, write);
    if Waiting(s', t) && s'.threads[t].row == x {
      if u == t {
        if Get(s.alg, l, e).1 == Wait {
          assert Find(l'.waiters, t) == |l.waiters| by { assert l'.waiters[|l.waiters|] == e; }
          forall id | BlockedBy(l', |l.waiters|, e.mode, id) ensures id in s'.threads[t].told {
            BlockersAreExact(l, e, id);
          }
        }
      } else {
        var k := Find(l'.waiters, t);
        assert k < |l.waiters|;
        assert Find(l.waiters, t) == k by { assert forall i :: 0 <= i <= k ==> l.waiters[i] == l'.waiters[i]; }
      }
    }
  }

  lemma LeaveInforms(s: State, s': State, u: nat, x: nat, t: nat)
    requires Locks(s) && u < |s.threads| && x < |s.rows| && t < |s.threads| && t != u
    requires Has(s.rows[x].lock.owners, u) || Has(s.rows[x].lock.waiters, u)
    requires |s'.threads| == |s.threads| && s'.threads[t] == s.threads[t]
    requires s'.rows == s.rows[x := Row(Release(s.rows[x].lock, u), s.rows[x].data)]
    requires Informed(s, t)
    ensures Informed(s', t)
  {
    if Waiting(s', t) && s'.threads[t].row == x {
      var l, l', mode := s.rows[x].lock, s'.rows[x].lock, ModeOf(s.threads[t].write);
      assert RowInv(s.alg, s.threads, x, l);
      ReleaseMembers(s.alg, l, u);
      var e := l'.waiters[Find(l'.waiters, t)];
      assert e in l'.waiters;
      MemberHas(l.waiters, e);
      forall id | BlockedBy(l', Find(l'.waiters, t), mode, id) ensures id in s'.threads[t].told {
        ReleaseAhead(s.alg, l, u, t, mode, id);
      }
    }
  }

  lemma StepInforms(s: State, s': State, u: nat, t: nat)
    requires Locks(s) && s.alg == DlDetect && Step(s, s', u) && t < |s.threads| && Informed(s, t)
    ensures Informed(s', t)
  {
    if x, w :| Request(s, s', u, x, w) { RequestInforms(s, s', u, x, w, t); }
    else if GiveUp(s, s', u) {
      if t != u { LeaveInforms(s, s', u, s.threads[u].row, t); }
    } else if Drop(s, s', u) {
      var acc := s.threads[u].acc;
      if t != u { LeaveInforms(s, s', u, acc[|acc| - 1].row, t); }
    } else {
      OtherInforms(s, s', u, t);
    }
  }

  /** The other steps change no lock. */
  lemma OtherInforms(s: State, s': State, u: nat, t: nat)
    requires Step(s, s', u) && !GiveUp(s, s', u) && !Drop(s, s', u) && (forall x, w :: !Request(s, s', u, x, w))
    requires t < |s.threads| && Informed(s, t)
    ensures Informed(s', t)
  {
    hide Step, GiveUp, Drop, Request;
    OtherLocks(s, s', u);
  }

  lemma OtherLocks(s: State, s': State, u: nat)
    requires Step(s, s', u) && !GiveUp(s, s', u) && !Drop(s, s', u) && (forall x, w :: !Request(s, s', u, x, w))
    ensures |s'.rows| == |s.rows| && forall x :: 0 <= x < |s.rows| ==> s'.rows[x].lock == s.rows[x].lock
    ensures |s'.threads| == |s.threads|
    ensures forall t :: 0 <= t < |s.threads| && s'.threads[t].Asking? ==> s'.threads[t] == s.threads[t]
  {
    hide Get, Release, Apply, TxnOf, Request, GiveUp, Drop;
  }

  lemma {:induction false} RunFixed(run: seq<State>, who: seq<nat>, db: Db)
    requires Run(run, who, db)
    ensures run[|run| - 1].alg == run[0].alg && |run[|run| - 1].threads| == |run[0].threads|
  {
    if |run| > 1 {
      var n := |run| - 2;
      assert Step(run[n], run[n + 1], who[n]);
      RunFixed(run[..n + 1], who[..n], db);
    }
  }

  lemma {:induction false} RunInforms(run: seq<State>, who: seq<nat>, db: Db, t: nat)
    requires Run(run, who, db) && run[0].alg == DlDetect && t < |run[0].threads|
    ensures Informed(run[|run| - 1], t)
  {
    if |run| > 1 {
      var n := |run| - 2;
      assert Step(run[n], run[n + 1], who[n]);
      RunInv(run[..n + 1], who[..n], db);
      RunFixed(run[..n + 1], who[..n], db);
      RunInforms(run[..n + 1], who[..n], db, t);
      StepInforms(run[n], run[n + 1], who[n], t);
    }
  }

  lemma BlockerIsTold(s: State, u: nat, t: nat)
    requires Locks(s) && Informed(s, t) && Blocks(s, u, t)
    ensures Active(s, u) && s.threads[u].me.id in s.threads[t].told
  {
    var x := s.threads[t].row;
    var l := s.rows[x].lock;
    assert RowInv(s.alg, s.threads, x, l);
    if i :| 0 <= i < |l.owners| && l.owners[i].thd == u && Conflict(ModeOf(s.threads[t].write), l.owners[i].mode) {
      assert l.owners[i] in l.owners && Justified(s.threads, x, l.owners[i]);
    } else {
      var i :| 0 <= i < Find(l.waiters, t) && l.waiters[i].thd == u && Conflict(ModeOf(s.threads[t].write), l.waiters[i].mode);
      assert l.waiters[i] in l.waiters && Waits(s.threads, x, l.waiters[i]);
    }
  }

  /** As long as a transaction waits, one of those it was told about still owns the row in a
      conflicting mode or comes before it in one. */
  lemma RecordStaysSufficient(run: seq<State>, who: seq<nat>, db: Db, t: nat) returns (u: nat)
    requires Run(run, who, db) && run[0].alg == DlDetect && Waiting(run[|run| - 1], t)
    ensures var s := run[|run| - 1];
            Blocks(s, u, t) && Active(s, u) && s.threads[u].me.id in s.threads[t].told
  {
    RunInv(run, who, db);
    RunFixed(run, who, db);
    RunInforms(run, who, db, t);
    u := WaiterHasBlocker(run[|run| - 1], t);
    BlockerIsTold(run[|run| - 1], u, t);
  }
}
