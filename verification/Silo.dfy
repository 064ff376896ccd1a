/** The Silo protocol as a transition system: threads run transactions whose atomic word
    accesses and cell copies interleave in any order. */
module Silo {
  import opened Serial
  import opened Versions
  import opened AccessList

  /** The version word of a row: the lock bit and the id of the last writer. */
  datatype Word = Word(locked: bool, tid: nat)

  /** Who holds the lock bit of a row: a thread, for one position of its write set. */
  datatype Owner = Free | Held(thd: nat, slot: nat)

  /** How far the newest committed version has reached the row: it is stored, it is only
      committed, or its cells are being copied under the old tid. */
  datatype Stage = Clean | Pending | Writing

  /** A row: the word and the data the source keeps, and four history variables.  `claim` is
      the lock point of the transaction that holds the row and has all its write locks. */
  datatype Row = Row(word: Word, data: Val, hist: seq<Version>, owner: Owner, stage: Stage, claim: nat)

  /** The arguments of a validation: write set, read set, lock point (a history variable) and
      the largest tid met so far. */
  datatype Job = Job(ws: seq<Access<nat>>, rs: seq<Access<nat>>, point: nat, maxTid: nat)

  datatype Thread =
    | Running(acc: seq<Access<nat>>)
    | Copying(acc: seq<Access<nat>>, row: nat, write: bool, seenWord: Word, buf: Val)
    | Locking(job: Job, n: nat)
    | Releasing(job: Job, k: nat, n: nat, abort: bool)
    | CheckingReads(job: Job, j: nat)
    | CheckingWrites(job: Job, j: nat)
    | Installing(job: Job, i: nat, k: nat, tid: nat)
    | Unlocking(job: Job, i: nat, tid: nat)

  /** `curTid` is the tid each thread used last; `clock` counts lock points. */
  datatype State = State(rows: seq<Row>, threads: seq<Thread>, curTid: seq<nat>, clock: nat,
                         order: seq<Txn>, log: seq<Txn>)

  // ---------------------------------------------------------------- the steps

  function SetThread(s: State, t: nat, th: Thread): State
    requires t < |s.threads|
  {
    s.(threads := s.threads[t := th])
  }

  function SetBoth(s: State, t: nat, th: Thread, x: nat, r: Row): State
    requires t < |s.threads| && x < |s.rows|
  {
    s.(threads := s.threads[t := th], rows := s.rows[x := r])
  }

  function Unlock(r: Row): Row { r.(word := r.word.(locked := false), owner := Free, claim := 0) }

  /** access: load the word; a locked word makes the reader spin. */
  ghost predicate BeginRead(s: State, s': State, t: nat, x: nat, write: bool) {
    && t < |s.threads| && x < |s.rows|
    && var th := s.threads[t];
    && th.Running?
    && (forall i :: 0 <= i < |th.acc| ==> th.acc[i].row != x)
    && !s.rows[x].word.locked
    && s' == SetThread(s, t, Copying(th.acc, x, write, s.rows[x].word, []))
  }

  /** access: copy one cell. */
  ghost predicate CopyCell(s: State, s': State, t: nat) {
    && t < |s.threads|
    && var th := s.threads[t];
    && th.Copying? && th.row < |s.rows|
    && var data := s.rows[th.row].data;
    && |th.buf| < |data|
    && s' == SetThread(s, t, Copying(th.acc, th.row, th.write, th.seenWord, th.buf + [data[|th.buf|]]))
  }

  /** access: load the word again; on any difference the copy is thrown away. */
  ghost predicate EndRead(s: State, s': State, t: nat) {
    && t < |s.threads|
    && var th := s.threads[t];
    && th.Copying? && th.row < |s.rows|
    && var r := s.rows[th.row];
    && |th.buf| == |r.data|
    && s' == SetThread(s, t,
         if r.word == th.seenWord
         then Running(th.acc + [Access(th.write, th.row, th.seenWord.tid, th.buf, th.buf)])
         else Running(th.acc))
  }

  /** The transaction body changes its private copy of a row it will write. */
  ghost predicate LocalWrite(s: State, s': State, t: nat, k: nat, v: Val) {
    && t < |s.threads|
    && var th := s.threads[t];
    && th.Running? && k < |th.acc| && th.acc[k].write && |v| == |th.acc[k].data|
    && s' == SetThread(s, t, Running(th.acc[k := th.acc[k].(data := v)]))
  }

  /** The transaction body gives up. */
  ghost predicate Rollback(s: State, s': State, t: nat) {
    t < |s.threads| && s.threads[t].Running? && s' == SetThread(s, t, Running([]))
  }

  /** validate_silo: build the two sets. */
  ghost predicate Validate(s: State, s': State, t: nat) {
    && t < |s.threads|
    && var th := s.threads[t];
    && th.Running?
    && s' == SetThread(s, t, Locking(Job(Filter(th.acc, true), Filter(th.acc, false), 0, 0), 0))
  }

  /** The pre-abort checks and the exhausted back-off abort with no lock held. */
  ghost predicate PreAbort(s: State, s': State, t: nat) {
    && t < |s.threads|
    && var th := s.threads[t];
    && th.Locking? && th.n == 0
    && s' == SetThread(s, t, Releasing(th.job, 0, 0, true))
  }

  /** try_lock succeeds; the tid under the lock is then compared with the one read. */
  ghost predicate Lock(s: State, s': State, t: nat) {
    && t < |s.threads|
    && var th := s.threads[t];
    && th.Locking? && th.n < |th.job.ws|
    && var a := th.job.ws[th.n];
    && a.row < |s.rows|
    && var r := s.rows[a.row];
    && !r.word.locked
    && s' == SetBoth(s, t,
         if r.word.tid == a.ver then Locking(th.job, th.n + 1) else Releasing(th.job, 0, th.n + 1, true),
         a.row, r.(word := r.word.(locked := true), owner := Held(t, th.n)))
  }

  /** try_lock fails: everything locked so far is released before the next attempt. */
  ghost predicate LockFails(s: State, s': State, t: nat) {
    && t < |s.threads|
    && var th := s.threads[t];
    && th.Locking? && th.n < |th.job.ws|
    && s' == SetThread(s, t, Releasing(th.job, 0, th.n, false))
  }

  ghost predicate ReleaseOne(s: State, s': State, t: nat) {
    && t < |s.threads|
    && var th := s.threads[t];
    && th.Releasing? && th.k < th.n <= |th.job.ws|
    && var x := th.job.ws[th.k].row;
    && x < |s.rows|
    && s' == SetBoth(s, t, Releasing(th.job, th.k + 1, th.n, th.abort), x, Unlock(s.rows[x]))
  }

  ghost predicate ReleaseDone(s: State, s': State, t: nat) {
    && t < |s.threads|
    && var th := s.threads[t];
    && th.Releasing? && th.k == th.n
    && s' == SetThread(s, t, if th.abort then Running([]) else Locking(th.job, 0))
  }

  /** Every write lock is held: this is the transaction's place in the serial order. */
  ghost predicate AllLocked(s: State, s': State, t: nat) {
    && t < |s.threads|
    && var th := s.threads[t];
    && th.Locking? && th.n == |th.job.ws|
    && s' == s.(
         rows := seq(|s.rows|, x requires 0 <= x < |s.rows| =>
           if x in Writes(th.job.ws) then s.rows[x].(claim := s.clock) else s.rows[x]),
         threads := s.threads[t := CheckingReads(th.job.(point := s.clock), 0)],
         clock := s.clock + 1)
  }

  function Max(a: nat, b: nat): nat { if a > b then a else b }

  /** Row_silo::validate for a row of the read set: unlocked and unchanged. */
  ghost predicate CheckRead(s: State, s': State, t: nat) {
    && t < |s.threads|
    && var th := s.threads[t];
    && th.CheckingReads? && th.j < |th.job.rs|
    && var a := th.job.rs[th.j];
    && a.row < |s.rows|
    && s' == SetThread(s, t,
         if !s.rows[a.row].word.locked && s.rows[a.row].word.tid == a.ver
         then CheckingReads(th.job.(maxTid := Max(th.job.maxTid, a.ver)), th.j + 1)
         else Releasing(th.job, 0, |th.job.ws|, true))
  }

  ghost predicate ReadsChecked(s: State, s': State, t: nat) {
    && t < |s.threads|
    && var th := s.threads[t];
    && th.CheckingReads? && th.j == |th.job.rs|
    && s' == SetThread(s, t, CheckingWrites(th.job, 0))
  }

  /** Row_silo::validate for a row of the write set: unchanged. */
  ghost predicate CheckWrite(s: State, s': State, t: nat) {
    && t < |s.threads|
    && var th := s.threads[t];
    && th.CheckingWrites? && th.j < |th.job.ws|
    && var a := th.job.ws[th.j];
    && a.row < |s.rows|
    && s' == SetThread(s, t,
         if s.rows[a.row].word.tid == a.ver
         then CheckingWrites(th.job.(maxTid := Max(th.job.maxTid, a.ver)), th.j + 1)
         else Releasing(th.job, 0, |th.job.ws|, true))
  }

  /** What a committing transaction reports: every value its accesses returned, those of
      the rows it overwrites included, and every value it writes. */
  function TxnOf(job: Job): Txn { Txn(job.point, Reads(job.ws + job.rs), Writes(job.ws)) }

  /** The tid a thread chooses: above every tid it met and above its previous one. */
  function NextTid(maxTid: nat, cur: nat): nat {
    if maxTid > cur then maxTid + 1 else cur + 1
  }

  /** Validation has succeeded: the transaction is committed. */
  ghost predicate Commit(s: State, s': State, t: nat) {
    && t < |s.threads| && t < |s.curTid|
    && var th := s.threads[t];
    && th.CheckingWrites? && th.j == |th.job.ws|
    && var txn := TxnOf(th.job);
    && var tid := NextTid(th.job.maxTid, s.curTid[t]);
    && s' == State(
         seq(|s.rows|, x requires 0 <= x < |s.rows| =>
           if x in txn.written
           then s.rows[x].(hist := s.rows[x].hist + [Version(th.job.point, txn.written[x])], stage := Pending, claim := 0)
           else s.rows[x]),
         s.threads[t := Installing(th.job, 0, 0, tid)],
         s.curTid[t := tid],
         s.clock,
         Insert(s.order, txn),
         s.log + [txn])
  }

  /** write: copy one cell while the word still shows the old tid. */
  ghost predicate InstallCell(s: State, s': State, t: nat) {
    && t < |s.threads|
    && var th := s.threads[t];
    && th.Installing? && th.i < |th.job.ws|
    && var a := th.job.ws[th.i];
    && a.row < |s.rows|
    && var r := s.rows[a.row];
    && th.k < |r.data| && th.k < |a.data|
    && s' == SetBoth(s, t, Installing(th.job, th.i, th.k + 1, th.tid), a.row,
         r.(data := r.data[th.k := a.data[th.k]], stage := Writing))
  }

  /** write: store the new tid, lock bit kept. */
  ghost predicate StoreTid(s: State, s': State, t: nat) {
    && t < |s.threads|
    && var th := s.threads[t];
    && th.Installing? && th.i < |th.job.ws|
    && var x := th.job.ws[th.i].row;
    && x < |s.rows| && th.k == |s.rows[x].data|
    && s' == SetBoth(s, t, Unlocking(th.job, th.i, th.tid), x,
         s.rows[x].(word := Word(true, th.tid), stage := Clean))
  }

  /** release after write. */
  ghost predicate UnlockWritten(s: State, s': State, t: nat) {
    && t < |s.threads|
    && var th := s.threads[t];
    && th.Unlocking? && th.i < |th.job.ws|
    && var x := th.job.ws[th.i].row;
    && x < |s.rows|
    && s' == SetBoth(s, t, Installing(th.job, th.i + 1, 0, th.tid), x, Unlock(s.rows[x]))
  }

  ghost predicate Finish(s: State, s': State, t: nat) {
    && t < |s.threads|
    && var th := s.threads[t];
    && th.Installing? && th.i == |th.job.ws|
    && s' == SetThread(s, t, Running([]))
  }

  ghost predicate Step(s: State, s': State, t: nat) {
    || (exists x, w :: BeginRead(s, s', t, x, w))
    || CopyCell(s, s', t) || EndRead(s, s', t)
    || (exists k, v :: LocalWrite(s, s', t, k, v))
    || Rollback(s, s', t) || Validate(s, s', t) || PreAbort(s, s', t)
    || Lock(s, s', t) || LockFails(s, s', t) || ReleaseOne(s, s', t) || ReleaseDone(s, s', t)
    || AllLocked(s, s', t)
    || CheckRead(s, s', t) || ReadsChecked(s, s', t) || CheckWrite(s, s', t)
    || Commit(s, s', t)
    || InstallCell(s, s', t) || StoreTid(s, s', t) || UnlockWritten(s, s', t) || Finish(s, s', t)
  }

  /** Every row holds its initial version under tid 0 and every thread is idle. */
  ghost predicate Init(s: State, db: Db) {
    && |s.rows| == |db| && |s.curTid| == |s.threads| && s.clock == 1
    && (forall x :: 0 <= x < |db| ==>
          s.rows[x] == Row(Word(false, 0), db[x], [Version(0, db[x])], Free, Clean, 0))
    && (forall t :: 0 <= t < |s.threads| ==> s.threads[t] == Running([]))
    && s.order == [] && s.log == []
  }
}
