/** Optimistic concurrency control with per-row validation as a transition system: rows are
    copied under their latches, validation latches every accessed row, and a timestamp taken
    with all latches in hand orders the transaction. */
module Occ {
  import opened Serial

  /** `holder` is the thread that has the latch. */
  datatype Latch = Open | HeldBy(thd: nat)

  datatype Row = Row(wts: nat, data: Val, latch: Latch)

  /** One access: the copy taken and the private copy, which a writer changes. */
  datatype Access = Access(row: nat, write: bool, orig: Val, data: Val)

  datatype Thread =
    | Idle
    | Running(start: nat, acc: seq<Access>)
    | Latching(start: nat, acc: seq<Access>, n: nat)
    | Writing(end: nat, acc: seq<Access>, i: nat)
    | Releasing(acc: seq<Access>, k: nat, n: nat)

  /** `clock` is the timestamp counter, `db` the committed database, `log` the order of
      commits. */
  datatype State = State(rows: seq<Row>, threads: seq<Thread>, clock: nat, db: Db, log: seq<Txn>)

  predicate Touches(acc: seq<Access>, x: nat) {
    exists k :: 0 <= k < |acc| && acc[k].row == x
  }

  predicate Overwrites(acc: seq<Access>, x: nat) {
    exists k :: 0 <= k < |acc| && acc[k].row == x && acc[k].write
  }

  function SlotOf(acc: seq<Access>, x: nat): (k: nat)
    requires Touches(acc, x)
    ensures k < |acc| && acc[k].row == x
  {
    if acc[|acc| - 1].row == x then |acc| - 1 else SlotOf(acc[..|acc| - 1], x)
  }

  function TxnOf(rows: nat, end: nat, acc: seq<Access>): Txn {
    Txn(end,
        map x: nat | x < rows && Touches(acc, x) :: acc[SlotOf(acc, x)].orig,
        map x: nat | x < rows && Touches(acc, x) && acc[SlotOf(acc, x)].write :: acc[SlotOf(acc, x)].data)
  }

  function SetThread(s: State, t: nat, th: Thread): State
    requires t < |s.threads|
  {
    s.(threads := s.threads[t := th])
  }

  function SetBoth(s: State, t: nat, th: Thread, x: nat, r: Row): State
    requires t < |s.threads| && x < |s.rows|
  {
    s.(threads := s.threads[t := th], rows := s.rows[x := r])
  }

  ghost predicate Begin(s: State, s': State, t: nat) {
    && t < |s.threads| && s.threads[t].Idle?
    && s' == State(s.rows, s.threads[t := Running(s.clock + 1, [])], s.clock + 1, s.db, s.log)
  }

  /** access, under the latch of the row. */
  ghost predicate Read(s: State, s': State, t: nat, x: nat, write: bool) {
    && t < |s.threads| && x < |s.rows|
    && var th, r := s.threads[t], s.rows[x];
    && th.Running? && !Touches(th.acc, x) && r.latch.Open?
    && s' == SetThread(s, t, if th.start < r.wts then Releasing(th.acc, 0, 0)
                             else Running(th.start, th.acc + [Access(x, write, r.data, r.data)]))
  }

  ghost predicate LocalWrite(s: State, s': State, t: nat, k: nat, v: Val) {
    && t < |s.threads|
    && var th := s.threads[t];
    && th.Running? && k < |th.acc| && th.acc[k].write
    && s' == SetThread(s, t, Running(th.start, th.acc[k := Access(th.acc[k].row, true, th.acc[k].orig, v)]))
  }

  ghost predicate Rollback(s: State, s': State, t: nat) {
    t < |s.threads| && s.threads[t].Running? && s' == SetThread(s, t, Releasing(s.threads[t].acc, 0, 0))
  }

  /** per_row_validate: the accesses are sorted, or left alone when spinning is bounded. */
  ghost predicate Validate(s: State, s': State, t: nat, acc: seq<Access>) {
    && t < |s.threads|
    && var th := s.threads[t];
    && th.Running? && multiset(acc) == multiset(th.acc)
    && s' == SetThread(s, t, Latching(th.start, acc, 0))
  }

  /** The next latch is taken and the row is checked. */
  ghost predicate LatchRow(s: State, s': State, t: nat) {
    && t < |s.threads|
    && var th := s.threads[t];
    && th.Latching? && th.n < |th.acc|
    && var x := th.acc[th.n].row;
    && x < |s.rows| && s.rows[x].latch.Open?
    && s' == SetBoth(s, t,
         if th.start < s.rows[x].wts then Releasing(th.acc, 0, th.n + 1) else Latching(th.start, th.acc, th.n + 1),
         x, Row(s.rows[x].wts, s.rows[x].data, HeldBy(t)))
  }

  /** Bounded spinning gives up on the next latch. */
  ghost predicate GiveUp(s: State, s': State, t: nat) {
    && t < |s.threads|
    && var th := s.threads[t];
    && th.Latching?
    && s' == SetThread(s, t, Releasing(th.acc, 0, th.n))
  }

  /** Every row is latched and valid: the end timestamp is taken. */
  ghost predicate Commit(s: State, s': State, t: nat) {
    && t < |s.threads|
    && var th := s.threads[t];
    && th.Latching? && th.n == |th.acc|
    && var txn := TxnOf(|s.rows|, s.clock + 1, th.acc);
    && s' == State(s.rows, s.threads[t := Writing(s.clock + 1, th.acc, |th.acc|)], s.clock + 1,
                   Apply(s.db, txn.written), s.log + [txn])
  }

  /** cleanup: the accesses are written back from the last to the first. */
  ghost predicate WriteBack(s: State, s': State, t: nat) {
    && t < |s.threads|
    && var th := s.threads[t];
    && th.Writing? && 0 < th.i <= |th.acc|
    && var a := th.acc[th.i - 1];
    && a.row < |s.rows|
    && s' == if a.write
             then SetBoth(s, t, Writing(th.end, th.acc, th.i - 1), a.row, Row(th.end, a.data, s.rows[a.row].latch))
             else SetThread(s, t, Writing(th.end, th.acc, th.i - 1))
  }

  ghost predicate WrittenBack(s: State, s': State, t: nat) {
    && t < |s.threads|
    && var th := s.threads[t];
    && th.Writing? && th.i == 0
    && s' == SetThread(s, t, Releasing(th.acc, 0, |th.acc|))
  }

  ghost predicate Release(s: State, s': State, t: nat) {
    && t < |s.threads|
    && var th := s.threads[t];
    && th.Releasing? && th.k < th.n <= |th.acc|
    && var x := th.acc[th.k].row;
    && x < |s.rows|
    && s' == SetBoth(s, t, Releasing(th.acc, th.k + 1, th.n), x, Row(s.rows[x].wts, s.rows[x].data, Open))
  }

  ghost predicate Finish(s: State, s': State, t: nat) {
    && t < |s.threads|
    && var th := s.threads[t];
    && th.Releasing? && th.k == th.n
    && s' == SetThread(s, t, Idle)
  }

  ghost predicate Step(s: State, s': State, t: nat) {
    || Begin(s, s', t)
    || (exists x, w :: Read(s, s', t, x, w))
    || (exists k, v :: LocalWrite(s, s', t, k, v))
    || Rollback(s, s', t)
    || (exists acc :: Validate(s, s', t, acc))
    || LatchRow(s, s', t) || GiveUp(s, s', t) || Commit(s, s', t)
    || WriteBack(s, s', t) || WrittenBack(s, s', t)
    || Release(s, s', t) || Finish(s, s', t)
  }

  ghost predicate Init(s: State, db: Db) {
    && |s.rows| == |db| && s.db == db && s.log == []
    && (forall x :: 0 <= x < |db| ==> s.rows[x] == Row(0, db[x], Open))
    && (forall t :: 0 <= t < |s.threads| ==> s.threads[t] == Idle)
  }

  ghost predicate Run(run: seq<State>, who: seq<nat>, db: Db) {
    && run != [] && |who| == |run| - 1
    && Init(run[0], db)
    && forall i :: 0 <= i < |who| ==> Step(run[i], run[i + 1], who[i])
  }
}
