/** Deadlock detection end to end: threads run under two-phase locking, publish what they wait
    for in the detector's table and clear it when they are done; whatever is deadlocked and has
    been published is a cycle of the table, which the detector finds. */
module LockDeadlocks {
  import opened Serial
  import opened LockTable
  import opened TwoPhase
  import opened TwoPhaseProof
  import opened LockWaits
  import WaitsFor

  /** The lock protocol, the detector's table and the threads that have published what their
      present wait is for. */
  datatype Whole = Whole(sys: State, table: WaitsFor.Table, published: set<nat>)

  /** A step of the protocol.  A new request starts a new wait; the end of a cleanup clears what
      the transaction has published. */
  ghost predicate Moves(w: Whole, w': Whole, t: nat) {
    && Step(w.sys, w'.sys, t) && t < |w.sys.threads| && w.table != []
    && w'.published == (if w.sys.threads[t].Running? then w.published - {t} else w.published)
    && w'.table == if Finish(w.sys, w'.sys, t) then WaitsFor.WithoutDep(w.table, w.sys.threads[t].me.id) else w.table
  }

  /** The waiting loop: what the transaction was told goes into the table, once. */
  ghost predicate Publishes(w: Whole, w': Whole, t: nat, txnids: seq<nat>) {
    && t < |w.sys.threads| && t !in w.published && w.table != []
    && var th := w.sys.threads[t];
    && th.Asking? && th.told != {}
    && (forall id :: id in txnids <==> id in th.told)
    && w' == Whole(w.sys, WaitsFor.WithDep(w.table, th.me.id, txnids, |th.acc|), w.published + {t})
  }

  ghost predicate Next(w: Whole, w': Whole, t: nat) {
    Moves(w, w', t) || exists txnids :: Publishes(w, w', t, txnids)
  }

  ghost predicate Starts(w: Whole, db: Db) {
    && Init(w.sys, db) && w.sys.alg == DlDetect && |w.table| == |w.sys.threads| && w.published == {}
    && forall t :: 0 <= t < |w.table| ==> w.table[t] == WaitsFor.Dep([], -1, 0)
  }

  ghost predicate Runs(run: seq<Whole>, who: seq<nat>, db: Db) {
    && run != [] && |who| == |run| - 1 && Starts(run[0], db)
    && forall i :: 0 <= i < |who| ==> Next(run[i], run[i + 1], who[i])
  }

  // ------------------------------------------------------------ what every run keeps

  /** A published wait is in the table. */
  ghost predicate Published(s: State, table: WaitsFor.Table, pub: set<nat>) {
    && |table| == |s.threads|
    && forall t: nat :: t in pub && t < |s.threads| && s.threads[t].Asking? ==>
         table[t].txnid == s.threads[t].me.id && forall id :: id in s.threads[t].told ==> id in table[t].adj
  }

  ghost predicate WholeInv(w: Whole) {
    && Locks(w.sys) && w.sys.alg == DlDetect
    && (forall t :: 0 <= t < |w.sys.threads| ==> Informed(w.sys, t))
    && Published(w.sys, w.table, w.published)
  }

  /** A step changes no other thread and keeps the transaction of its own, until it finishes. */
  lemma StepIsOwn(s: State, s': State, t: nat)
    requires Step(s, s', t)
    ensures t < |s.threads| == |s'.threads| && s'.alg == s.alg
    ensures forall u :: 0 <= u < |s.threads| && u != t ==> s'.threads[u] == s.threads[u]
    ensures s'.threads[t].Asking? && !s.threads[t].Running? ==> s'.threads[t] == s.threads[t] && !Finish(s, s', t)
  {
    hide Get, Release, Apply, TxnOf;
  }

  lemma IdIsOwn(s: State, t: nat)
    requires Locks(s) && Active(s, t)
    ensures s.threads[t].me.id % |s.threads| == t
  {
    assert ThreadInv(s.rows, t, s.threads[t]);
  }

  lemma MovesPublished(w: Whole, w': Whole, t: nat)
    requires Moves(w, w', t) && Locks(w.sys) && Published(w.sys, w.table, w.published)
    ensures Published(w'.sys, w'.table, w'.published)
  {
    hide Step, Locks, Finish;
    StepIsOwn(w.sys, w'.sys, t);
    if Finish(w.sys, w'.sys, t) { FinishesOwn(w, w', t); }
  }

  lemma FinishesOwn(w: Whole, w': Whole, t: nat)
    requires Moves(w, w', t) && Locks(w.sys) && Finish(w.sys, w'.sys, t) && |w.table| == |w.sys.threads|
    ensures WaitsFor.Thread(w.table, w.sys.threads[t].me.id) == t && w'.sys.threads[t].Idle?
  {
    IdIsOwn(w.sys, t);
  }

  lemma PublishesPublished(w: Whole, w': Whole, t: nat, txnids: seq<nat>)
    requires Publishes(w, w', t, txnids) && Locks(w.sys) && Published(w.sys, w.table, w.published)
    ensures Published(w'.sys, w'.table, w'.published)
  {
    hide Locks;
    IdIsOwn(w.sys, t);
    forall id | id in w.sys.threads[t].told ensures id in w'.table[t].adj {
      var i :| 0 <= i < |txnids| && txnids[i] == id;
      assert w'.table[t].adj[|w.table[t].adj| + i] == id;
    }
  }

  lemma NextKeeps(w: Whole, w': Whole, t: nat)
    requires WholeInv(w) && Next(w, w', t)
    ensures WholeInv(w')
  {
    hide Locks, Informed, Published, Step, Finish;
    if Moves(w, w', t) {
      StepKeepsLocks(w.sys, w'.sys, t);
      StepIsOwn(w.sys, w'.sys, t);
      forall u | 0 <= u < |w'.sys.threads| ensures Informed(w'.sys, u) { StepInforms(w.sys, w'.sys, t, u); }
      MovesPublished(w, w', t);
    } else {
      var txnids :| Publishes(w, w', t, txnids);
      PublishesPublished(w, w', t, txnids);
    }
  }

  lemma StartsInv(w: Whole, db: Db)
    requires Starts(w, db)
    ensures WholeInv(w)
  {
    InitInv(w.sys, db);
  }

  lemma {:induction false} RunsInv(run: seq<Whole>, who: seq<nat>, db: Db)
    requires Runs(run, who, db)
    ensures WholeInv(run[|run| - 1])
  {
    hide WholeInv, Next, Starts;
    if |run| == 1 {
      StartsInv(run[0], db);
    } else {
      var n := |run| - 2;
      assert Next(run[n], run[n + 1], who[n]);
      RunsInv(run[..n + 1], who[..n], db);
      NextKeeps(run[n], run[n + 1], who[n]);
    }
  }

  // ------------------------------------------------------------ deadlocks

  /** Between two waiting transactions, being blocked is a live edge of the table. */
  lemma BlockIsEdge(s: State, table: WaitsFor.Table, pub: set<nat>, u: nat, t: nat)
    requires Locks(s) && Informed(s, t) && Published(s, table, pub) && t in pub && u in pub
    requires Blocks(s, u, t) && Waiting(s, u)
    ensures WaitsFor.Edge(table, t, u)
  {
    BlockerIsTold(s, u, t);
    var id := s.threads[u].me.id;
    var j :| 0 <= j < |table[t].adj| && table[t].adj[j] == id;
    assert WaitsFor.Thread(table, id) == u;
  }

  /** The search that starts from the transaction of thread `t` reports a deadlock. */
  ghost predicate IsSeen(w: Whole, t: nat) {
    t < |w.sys.threads| && !w.sys.threads[t].Idle? && WaitsFor.Deadlocked(w.table, w.sys.threads[t].me.id)
  }

  lemma CycleIsSeen(w: Whole, t: nat)
    requires WholeInv(w) && Waiting(w.sys, t) && t in w.published && WaitsFor.Cyclic(w.table, t)
    ensures IsSeen(w, t)
  {
    hide Locks, Informed;
    IdIsOwn(w.sys, t);
  }

  /** Every deadlock whose waits have been published is a cycle of the table: transactions each of
      which is blocked by the next, and the last by the first. */
  lemma DeadlockIsRecorded(run: seq<Whole>, who: seq<nat>, db: Db, p: seq<nat>)
    requires Runs(run, who, db) && p != [] && (forall i :: 0 <= i < |p| ==> p[i] in run[|run| - 1].published)
    requires Chain(run[|run| - 1].sys, p) && Blocks(run[|run| - 1].sys, p[0], p[|p| - 1])
    ensures forall i :: 0 <= i < |p| ==> IsSeen(run[|run| - 1], p[i])
  {
    hide Published, Locks;
    RunsInv(run, who, db);
    var w := run[|run| - 1];
    forall i | 0 <= i < |p| ensures Waiting(w.sys, p[i]) && Informed(w.sys, p[i]) {
      if i < |p| - 1 { assert Blocks(w.sys, p[i + 1], p[i]); }
    }
    assert |w.table| == |w.sys.threads| by { TableIs(w); }
    forall i | 0 < i < |p| ensures WaitsFor.Edge(w.table, p[i - 1], p[i]) {
      BlockIsEdge(w.sys, w.table, w.published, p[i], p[i - 1]);
    }
    BlockIsEdge(w.sys, w.table, w.published, p[0], p[|p| - 1]);
    forall i | 0 <= i < |p| ensures IsSeen(w, p[i]) {
      CycleFrom(w.table, p, i);
      CycleIsSeen(w, p[i]);
    }
  }

  /** Every node of a circle reaches it. */
  lemma CycleFrom(t: WaitsFor.Table, p: seq<nat>, i: nat)
    requires i < |p| && WaitsFor.Path(t, p) && WaitsFor.Edge(t, p[|p| - 1], p[0])
    ensures WaitsFor.Cyclic(t, p[i])
  {
    var q := p[i..] + p[..i];
    forall j | 0 < j < |q| ensures WaitsFor.Edge(t, q[j - 1], q[j]) {
      if j < |p| - i {
        assert WaitsFor.Edge(t, p[i + j - 1], p[i + j]);
      } else if j > |p| - i {
        assert WaitsFor.Edge(t, p[j - (|p| - i) - 1], p[j - (|p| - i)]);
      }
    }
    assert WaitsFor.Edge(t, q[|q| - 1], q[0]) by {
      if i > 0 { assert WaitsFor.Edge(t, p[i - 1], p[i]); }
    }
    assert WaitsFor.Lasso(t, p[i], q, 0);
  }

  lemma TableIs(w: Whole)
    requires WholeInv(w)
    ensures |w.table| == |w.sys.threads|
  {
  }

  /** A set of transactions none of which can go on until another one of the set has left. */
  ghost predicate Stuck(s: State, all: set<nat>) {
    forall t, u :: t in all && Blocks(s, u, t) ==> u in all
  }

  lemma {:induction false} WalkStuck(s: State, table: WaitsFor.Table, pub: set<nat>, all: set<nat>, p: seq<nat>)
    requires Locks(s) && Published(s, table, pub) && Stuck(s, all)
    requires forall t :: t in all ==> t in pub && Waiting(s, t) && Informed(s, t)
    requires p != [] && (forall i :: 0 <= i < |p| ==> p[i] in all) && WaitsFor.Path(table, p)
    ensures WaitsFor.Cyclic(table, p[0])
    decreases all - set i | 0 <= i < |p| :: p[i]
  {
    hide Informed, Locks, Published, Blocks, Waiting;
    var t := p[|p| - 1];
    var u := WaiterHasBlocker(s, t);
    BlockIsEdge(s, table, pub, u, t);
    if k :| 0 <= k < |p| && p[k] == u {
      assert WaitsFor.Lasso(table, p[0], p, k);
    } else {
      var q := p + [u];
      forall i | 0 < i < |q| ensures WaitsFor.Edge(table, q[i - 1], q[i]) {
        if i < |p| { assert WaitsFor.Edge(table, p[i - 1], p[i]); }
      }
      var seen := set i | 0 <= i < |p| :: p[i];
      assert (set i | 0 <= i < |q| :: q[i]) == seen + {u} by {
        assert q[|p|] == u;
        forall i | 0 <= i < |p| ensures q[i] == p[i] {}
        forall v | v in seen ensures v in set i | 0 <= i < |q| :: q[i] {
          var i :| 0 <= i < |p| && p[i] == v;
          assert q[i] == v;
        }
      }
      WalkStuck(s, table, pub, all, q);
    }
  }

  /** If a set of waiting transactions is stuck and all of them have published, a cycle of the
      table can be reached from every one of them. */
  lemma StuckIsDetected(run: seq<Whole>, who: seq<nat>, db: Db, all: set<nat>, t: nat)
    requires Runs(run, who, db) && t in all && Stuck(run[|run| - 1].sys, all)
    requires forall u :: u in all ==> u in run[|run| - 1].published && Waiting(run[|run| - 1].sys, u)
    ensures IsSeen(run[|run| - 1], t)
  {
    hide Published, Locks;
    RunsInv(run, who, db);
    var w := run[|run| - 1];
    TableIs(w);
    WalkStuck(w.sys, w.table, w.published, all, [t]);
    CycleIsSeen(w, t);
  }

  /** A published wait stays published for as long as it lasts. */
  lemma PublishedStays(w: Whole, w': Whole, u: nat, t: nat)
    requires Next(w, w', u) && Waiting(w.sys, t) && t in w.published
    ensures t in w'.published
  {
    hide Step, Finish;
  }

  /** A waiting transaction that has not published yet can do so. */
  lemma WaiterPublishes(run: seq<Whole>, who: seq<nat>, db: Db, t: nat) returns (w': Whole)
    requires Runs(run, who, db) && Waiting(run[|run| - 1].sys, t)
    ensures t !in run[|run| - 1].published ==> Next(run[|run| - 1], w', t) && t in w'.published
  {
    hide Published, Locks, Step, Informed;
    RunsInv(run, who, db);
    var w := run[|run| - 1];
    TableIs(w);
    var u := WaiterHasBlocker(w.sys, t);
    BlockerIsTold(w.sys, u, t);
    var th := w.sys.threads[t];
    var txnids := Listed(th.told);
    w' := Whole(w.sys, WaitsFor.WithDep(w.table, th.me.id, txnids, |th.acc|), w.published + {t});
    if t !in w.published { assert Publishes(w, w', t, txnids); }
  }

  lemma {:induction false} Listed(ids: set<nat>) returns (r: seq<nat>)
    ensures forall id :: id in r <==> id in ids
  {
    if ids == {} {
      r := [];
    } else {
      var id :| id in ids;
      r := Listed(ids - {id});
      r := [id] + r;
    }
  }

  // ------------------------------------------------------------ nothing else is recorded

  /** Everything the transaction that thread `t` is running has been told, in this wait or an
      earlier one. */
  ghost function EverTold(run: seq<Whole>, t: nat): set<nat> {
    if run == [] || t >= |run[|run| - 1].sys.threads| || run[|run| - 1].sys.threads[t].Idle? then {}
    else
      var th := run[|run| - 1].sys.threads[t];
      EverTold(run[..|run| - 1], t) + if th.Asking? then th.told else {}
  }

  /** What a thread has in the table was told to the transaction it is running. */
  ghost predicate OnlyTold(w: Whole, t: nat, told: set<nat>)
    requires t < |w.table|
  {
    forall id :: id in w.table[t].adj ==> id in told
  }

  lemma ToldGrows(run: seq<Whole>, w: Whole, t: nat)
    requires run != [] && t < |w.sys.threads|
    ensures EverTold(run + [w], t) ==
            if w.sys.threads[t].Idle? then {} else EverTold(run, t) + if w.sys.threads[t].Asking? then w.sys.threads[t].told else {}
  {
    assert (run + [w])[..|run|] == run;
  }

  /** A thread becomes idle only by finishing. */
  lemma IdleByFinish(s: State, s': State, t: nat, u: nat)
    requires Step(s, s', t) && u < |s.threads| && u < |s'.threads| && s'.threads[u].Idle? && !s.threads[u].Idle?
    ensures u == t && Finish(s, s', t)
  {
    hide Get, Release, Apply, TxnOf;
  }

  lemma MovesOnlyTold(w: Whole, w': Whole, u: nat, t: nat, told: set<nat>)
    requires Moves(w, w', u) && Locks(w.sys) && |w.table| == |w.sys.threads| && t < |w.table| && OnlyTold(w, t, told)
    requires w.sys.threads[t].Idle? ==> told == {}
    ensures |w'.table| == |w.table| && |w'.sys.threads| == |w.sys.threads|
    ensures OnlyTold(w', t, if w'.sys.threads[t].Idle? then {} else told)
  {
    hide Step, Locks, Finish;
    StepIsOwn(w.sys, w'.sys, u);
    if w'.sys.threads[t].Idle? && !w.sys.threads[t].Idle? { IdleByFinish(w.sys, w'.sys, u, t); }
    if Finish(w.sys, w'.sys, u) { FinishesOwn(w, w', u); }
  }

  lemma PublishesOnlyTold(w: Whole, w': Whole, u: nat, txnids: seq<nat>, t: nat, told: set<nat>)
    requires Publishes(w, w', u, txnids) && Locks(w.sys) && |w.table| == |w.sys.threads| && t < |w.table| && OnlyTold(w, t, told)
    requires w.sys.threads[t].Asking? ==> w.sys.threads[t].told <= told
    ensures |w'.table| == |w.table| && OnlyTold(w', t, told)
  {
    hide Locks;
    IdIsOwn(w.sys, u);
  }

  /** In every run, whatever a thread has in the table was told to the transaction it is running;
      an idle thread has nothing there. */
  lemma {:induction false} RecordsOnlyTold(run: seq<Whole>, who: seq<nat>, db: Db, t: nat)
    requires Runs(run, who, db) && t < |run[0].sys.threads|
    ensures var w := run[|run| - 1];
            |w.table| == |w.sys.threads| == |run[0].sys.threads| && OnlyTold(w, t, EverTold(run, t))
  {
    hide WholeInv, Next, Starts, EverTold, OnlyTold;
    if |run| == 1 {
      StartsEmpty(run[0], db, t);
    } else {
      var n := |run| - 2;
      var before, w, w' := run[..n + 1], run[n], run[n + 1];
      assert Next(w, w', who[n]) && run == before + [w'];
      RecordsOnlyTold(before, who[..n], db, t);
      RunsInv(before, who[..n], db);
      NextOnlyTold(before, w, w', who[n], t);
    }
  }

  lemma StartsEmpty(w: Whole, db: Db, t: nat)
    requires Starts(w, db) && t < |w.sys.threads|
    ensures |w.table| == |w.sys.threads| && forall told :: OnlyTold(w, t, told)
  {
  }

  lemma ToldIs(run: seq<Whole>, t: nat)
    requires run != [] && t < |run[|run| - 1].sys.threads|
    ensures var th := run[|run| - 1].sys.threads[t];
            (th.Idle? ==> EverTold(run, t) == {}) && (th.Asking? ==> th.told <= EverTold(run, t))
  {
  }

  lemma NextOnlyTold(run: seq<Whole>, w: Whole, w': Whole, u: nat, t: nat)
    requires run != [] && w == run[|run| - 1] && WholeInv(w) && Next(w, w', u)
    requires |w.table| == |w.sys.threads| && t < |w.table| && OnlyTold(w, t, EverTold(run, t))
    ensures |w'.table| == |w'.sys.threads| == |w.sys.threads| && OnlyTold(w', t, EverTold(run + [w'], t))
  {
    hide Locks, Informed, Published, Step, Finish, Moves, Publishes, EverTold;
    ToldIs(run, t);
    if Moves(w, w', u) {
      MovesOnlyTold(w, w', u, t, EverTold(run, t));
    } else {
      var txnids :| Publishes(w, w', u, txnids);
      PublishesOnlyTold(w, w', u, txnids, t, EverTold(run, t));
      SameSystem(w, w', u, txnids);
    }
    ToldGrows(run, w', t);
  }

  lemma SameSystem(w: Whole, w': Whole, u: nat, txnids: seq<nat>)
    requires Publishes(w, w', u, txnids)
    ensures w'.sys == w.sys
  {
  }

  /** An edge of the table comes from a wait: its target runs a transaction that its source's
      transaction has been told to wait for.  A transaction that has waited only once, and has
      published, has exactly the ids it was told. */
  lemma EdgesWereTold(run: seq<Whole>, who: seq<nat>, db: Db, u: nat, v: nat)
    requires Runs(run, who, db) && u < |run[0].sys.threads|
    ensures var w := run[|run| - 1];
      && |w.table| == |w.sys.threads| == |run[0].sys.threads|
      && (WaitsFor.Edge(w.table, u, v) ==> v < |w.table| && w.table[v].txnid >= 0 && w.table[v].txnid in EverTold(run, u))
      && (u in w.published && w.sys.threads[u].Asking? && EverTold(run, u) == w.sys.threads[u].told ==>
            forall id :: id in w.table[u].adj <==> id in w.sys.threads[u].told)
  {
    hide Locks, Informed, Runs, EverTold;
    RecordsOnlyTold(run, who, db, u);
    RunsInv(run, who, db);
    assert run != [] by { NotEmpty(run, who, db); }
  }

  lemma NotEmpty(run: seq<Whole>, who: seq<nat>, db: Db)
    requires Runs(run, who, db)
    ensures run != []
  {
  }
}
