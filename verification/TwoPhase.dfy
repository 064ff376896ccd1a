/** Strict two-phase locking as a transition system: transactions change rows in place while
    they hold them, keep a copy of what they overwrite, and give every lock back at the end. */
module TwoPhase {
  import opened Serial
  import opened LockTable

  datatype Row = Row(lock: Lock, data: Val)

  /** One access: for a write, `orig` is the copy taken for undoing it. */
  datatype Access = Access(row: nat, write: bool, orig: Val)

  datatype Who = Who(id: nat, ts: nat)

  /** What a thread is doing.  `told` is what the lock manager answered it has to wait for. */
  datatype Thread =
    | Idle
    | Running(me: Who, acc: seq<Access>)
    | Asking(me: Who, acc: seq<Access>, row: nat, write: bool, told: set<nat>)
    | Ending(me: Who, acc: seq<Access>, abort: bool, restored: bool)

  /** `db` is the committed database and `log` the order of commits. */
  datatype State = State(alg: Alg, rows: seq<Row>, threads: seq<Thread>, db: Db, log: seq<Txn>)

  function ModeOf(write: bool): Mode { if write then Ex else Sh }

  function EntryOf(t: nat, me: Who, write: bool): Entry { Entry(t, me.id, me.ts, ModeOf(write)) }

  predicate Touches(acc: seq<Access>, x: nat) {
    exists k :: 0 <= k < |acc| && acc[k].row == x
  }

  predicate Overwrites(acc: seq<Access>, x: nat) {
    exists k :: 0 <= k < |acc| && acc[k].row == x && acc[k].write
  }

  function Orig(acc: seq<Access>, x: nat): (v: Val)
    requires Touches(acc, x)
    ensures exists k :: 0 <= k < |acc| && acc[k].row == x && acc[k].orig == v
  {
    if acc[|acc| - 1].row == x then acc[|acc| - 1].orig else Orig(acc[..|acc| - 1], x)
  }

  /** What a committing transaction has read and what it leaves behind. */
  function TxnOf(rows: seq<Row>, acc: seq<Access>, at: nat): Txn {
    Txn(at,
        map x: nat | x < |rows| && Touches(acc, x) :: Orig(acc, x),
        map x: nat | x < |rows| && Overwrites(acc, x) :: rows[x].data)
  }

  function SetThread(s: State, t: nat, th: Thread): State
    requires t < |s.threads|
  {
    s.(threads := s.threads[t := th])
  }

  function SetBoth(s: State, t: nat, th: Thread, x: nat, r: Row): State
    requires t < |s.threads| && x < |s.rows|
  {
    s.(threads := s.threads[t := th], rows := s.rows[x := r])
  }

  /** A transaction starts, with an id dealt out round-robin and a timestamp of its own. */
  ghost predicate Begin(s: State, s': State, t: nat, me: Who) {
    && t < |s.threads| && s.threads[t].Idle?
    && me.id % |s.threads| == t
    && (forall u :: 0 <= u < |s.threads| && !s.threads[u].Idle? ==> s.threads[u].me.ts != me.ts)
    && s' == SetThread(s, t, Running(me, []))
  }

  /** get_row asks for the lock. */
  ghost predicate Request(s: State, s': State, t: nat, x: nat, write: bool) {
    && t < |s.threads| && x < |s.rows|
    && var th := s.threads[t];
    && th.Running? && !Touches(th.acc, x)
    && var e := EntryOf(t, th.me, write);
    && var l := s.rows[x].lock;
    && var (l', rc) := Get(s.alg, l, e);
    && s' == SetBoth(s, t,
         if rc == Abort then Ending(th.me, th.acc, true, false)
         else Asking(th.me, th.acc, x, write, if rc == Wait then (set id | id in Blockers(l, e)) else {}),
         x, Row(l', s.rows[x].data))
  }

  /** get_row has the lock and copies the row when it is going to be written. */
  ghost predicate Obtain(s: State, s': State, t: nat) {
    && t < |s.threads|
    && var th := s.threads[t];
    && th.Asking? && th.row < |s.rows| && Has(s.rows[th.row].lock.owners, t)
    && s' == SetThread(s, t, Running(th.me, th.acc + [Access(th.row, th.write, s.rows[th.row].data)]))
  }

  /** A transaction waiting under deadlock detection is chosen as a victim or times out; the
      lock may have been granted in the meantime. */
  ghost predicate GiveUp(s: State, s': State, t: nat) {
    && t < |s.threads| && s.alg == DlDetect
    && var th := s.threads[t];
    && th.Asking? && th.row < |s.rows|
    && var r := s.rows[th.row];
    && (Has(r.lock.owners, t) || Has(r.lock.waiters, t))
    && s' == SetBoth(s, t, Ending(th.me, th.acc, true, false), th.row, Row(Release(r.lock, t), r.data))
  }

  /** The transaction body changes a row in place. */
  ghost predicate Write(s: State, s': State, t: nat, k: nat, v: Val) {
    && t < |s.threads|
    && var th := s.threads[t];
    && th.Running? && k < |th.acc| && th.acc[k].write && th.acc[k].row < |s.rows|
    && var x := th.acc[k].row;
    && s' == s.(rows := s.rows[x := Row(s.rows[x].lock, v)])
  }

  ghost predicate Rollback(s: State, s': State, t: nat) {
    && t < |s.threads| && s.threads[t].Running?
    && s' == SetThread(s, t, Ending(s.threads[t].me, s.threads[t].acc, true, false))
  }

  /** finish with success: from here on the transaction only gives its locks back. */
  ghost predicate Commit(s: State, s': State, t: nat) {
    && t < |s.threads|
    && var th := s.threads[t];
    && th.Running?
    && var txn := TxnOf(s.rows, th.acc, |s.log|);
    && s' == State(s.alg, s.rows, s.threads[t := Ending(th.me, th.acc, false, false)],
                   Apply(s.db, txn.written), s.log + [txn])
  }

  /** cleanup after an abort: the latest access is undone from its copy. */
  ghost predicate Undo(s: State, s': State, t: nat) {
    && t < |s.threads|
    && var th := s.threads[t];
    && th.Ending? && th.abort && !th.restored && th.acc != []
    && var a := th.acc[|th.acc| - 1];
    && a.write && a.row < |s.rows|
    && s' == SetBoth(s, t, Ending(th.me, th.acc, true, true), a.row, Row(s.rows[a.row].lock, a.orig))
  }

  /** cleanup: the lock of the latest access is given back. */
  ghost predicate Drop(s: State, s': State, t: nat) {
    && t < |s.threads|
    && var th := s.threads[t];
    && th.Ending? && th.acc != []
    && var a := th.acc[|th.acc| - 1];
    && a.row < |s.rows| && (th.abort && a.write ==> th.restored)
    && var r := s.rows[a.row];
    && (Has(r.lock.owners, t) || Has(r.lock.waiters, t))
    && s' == SetBoth(s, t, Ending(th.me, th.acc[..|th.acc| - 1], th.abort, false),
                     a.row, Row(Release(r.lock, t), r.data))
  }

  ghost predicate Finish(s: State, s': State, t: nat) {
    && t < |s.threads|
    && var th := s.threads[t];
    && th.Ending? && th.acc == []
    && s' == SetThread(s, t, Idle)
  }

  ghost predicate Step(s: State, s': State, t: nat) {
    || (exists me :: Begin(s, s', t, me))
    || (exists x, w :: Request(s, s', t, x, w))
    || Obtain(s, s', t) || GiveUp(s, s', t)
    || (exists k, v :: Write(s, s', t, k, v))
    || Rollback(s, s', t) || Commit(s, s', t)
    || Undo(s, s', t) || Drop(s, s', t) || Finish(s, s', t)
  }

  ghost predicate Init(s: State, db: Db) {
    && |s.rows| == |db| && s.db == db && s.log == []
    && (forall x :: 0 <= x < |db| ==> s.rows[x] == Row(Lock([], []), db[x]))
    && (forall t :: 0 <= t < |s.threads| ==> s.threads[t] == Idle)
  }

  ghost predicate Run(run: seq<State>, who: seq<nat>, db: Db) {
    && run != [] && |who| == |run| - 1
    && Init(run[0], db)
    && forall i :: 0 <= i < |who| ==> Step(run[i], run[i + 1], who[i])
  }
}
