/** The TicToc protocol as a transition system: threads run transactions whose atomic word
    accesses and cell copies interleave in any order. */
module TicToc {
  import opened Serial
  import opened Versions
  import opened AccessList
  import opened TicTocWord

  /** Who holds the lock bit of a row: a thread, for one position of its write set. */
  datatype Owner = Free | Held(thd: nat, slot: nat)

  /** How far the newest committed version has reached the row: it is stored, it is only
      committed, or its timestamp is stored and its cells are being copied. */
  datatype Stage = Clean | Pending | Stored

  /** A row: the timestamp word and the data the source keeps, and three history variables. */
  datatype Row = Row(word: Word, data: Val, hist: seq<Version>, owner: Owner, stage: Stage)

  /** What an access remembers of the version it copied: its write timestamp and the end of
      its lease. */
  datatype Lease = Lease(wts: nat, rts: nat)

  /** The arguments of a validation: write set, read set and commit timestamp. */
  datatype Job = Job(ws: seq<Access<Lease>>, rs: seq<Access<Lease>>, cts: nat)

  datatype Thread =
    | Running(acc: seq<Access<Lease>>)
    | Copying(acc: seq<Access<Lease>>, row: nat, write: bool, seenWord: Word, buf: Val)
    | Locking(job: Job, n: nat)
    | Releasing(job: Job, k: nat, n: nat, abort: bool)
    | Raising(job: Job, i: nat)
    | Renewing(job: Job, j: nat)
    | Swapping(job: Job, j: nat, expected: Word, want: Word, rebase: bool)
    | Storing(job: Job, i: nat)
    | Installing(job: Job, i: nat, k: nat)

  /** `order` is the serial order the protocol claims, `log` the order of commits. */
  datatype State = State(rows: seq<Row>, threads: seq<Thread>, order: seq<Txn>, log: seq<Txn>)

  // ---------------------------------------------------------------- the steps

  /** The smallest timestamp that is no earlier than any version read and later than the
      lease of every version to be overwritten. */
  function CommitTs(acc: seq<Access<Lease>>): (c: nat)
    ensures forall a :: a in acc ==> c >= if a.write then a.ver.rts + 1 else a.ver.wts
  {
    if acc == [] then 0
    else
      var a, c := acc[|acc| - 1], CommitTs(acc[..|acc| - 1]);
      var least := if a.write then a.ver.rts + 1 else a.ver.wts;
      if least > c then least else c
  }

  function SetThread(s: State, t: nat, th: Thread): State
    requires t < |s.threads|
  {
    s.(threads := s.threads[t := th])
  }

  function SetBoth(s: State, t: nat, th: Thread, x: nat, r: Row): State
    requires t < |s.threads| && x < |s.rows|
  {
    s.(threads := s.threads[t := th], rows := s.rows[x := r])
  }

  function Unlock(r: Row): Row { r.(word := r.word.(locked := false), owner := Free) }

  /** access: load the word; a locked word makes the reader spin. */
  ghost predicate BeginRead(s: State, s': State, t: nat, x: nat, write: bool) {
    && t < |s.threads| && x < |s.rows|
    && var th := s.threads[t];
    && th.Running?
    && (forall a :: a in th.acc ==> a.row != x)
    && !s.rows[x].word.locked
    && s' == SetThread(s, t, Copying(th.acc, x, write, s.rows[x].word, []))
  }

  /** access: copy one cell. */
  ghost predicate CopyCell(s: State, s': State, t: nat) {
    && t < |s.threads|
    && var th := s.threads[t];
    && th.Copying? && th.row < |s.rows|
    && var data := s.rows[th.row].data;
    && |th.buf| < |data|
    && s' == SetThread(s, t, Copying(th.acc, th.row, th.write, th.seenWord, th.buf + [data[|th.buf|]]))
  }

  /** access: load the word again and compare everything but the lease; on a mismatch the
      copy is thrown away. */
  ghost predicate EndRead(s: State, s': State, t: nat) {
    && t < |s.threads|
    && var th := s.threads[t];
    && th.Copying? && th.row < |s.rows|
    && var r := s.rows[th.row];
    && |th.buf| == |r.data|
    && s' == SetThread(s, t,
         if r.word.wts == th.seenWord.wts && r.word.locked == th.seenWord.locked
         then Running(th.acc + [Access(th.write, th.row, Lease(th.seenWord.wts, th.seenWord.Rts()), th.buf, th.buf)])
         else Running(th.acc))
  }

  /** The transaction body changes its private copy of a row it will write. */
  ghost predicate LocalWrite(s: State, s': State, t: nat, k: nat, v: Val) {
    && t < |s.threads|
    && var th := s.threads[t];
    && th.Running? && k < |th.acc| && th.acc[k].write && |v| == |th.acc[k].data|
    && s' == SetThread(s, t, Running(th.acc[k := th.acc[k].(data := v)]))
  }

  /** The transaction body gives up. */
  ghost predicate Rollback(s: State, s': State, t: nat) {
    t < |s.threads| && s.threads[t].Running? && s' == SetThread(s, t, Running([]))
  }

  /** validate_tictoc: build the two sets and the commit timestamp. */
  ghost predicate Validate(s: State, s': State, t: nat) {
    && t < |s.threads|
    && var th := s.threads[t];
    && th.Running?
    && s' == SetThread(s, t, Locking(Job(Filter(th.acc, true), Filter(th.acc, false), CommitTs(th.acc)), 0))
  }

  /** The pre-abort checks and the exhausted back-off abort with no lock held. */
  ghost predicate PreAbort(s: State, s': State, t: nat) {
    && t < |s.threads|
    && var th := s.threads[t];
    && th.Locking? && th.n == 0
    && s' == SetThread(s, t, Releasing(th.job, 0, 0, true))
  }

  /** try_lock succeeds; the version under the lock is then compared with the one read. */
  ghost predicate Lock(s: State, s': State, t: nat) {
    && t < |s.threads|
    && var th := s.threads[t];
    && th.Locking? && th.n < |th.job.ws|
    && var a := th.job.ws[th.n];
    && a.row < |s.rows|
    && var r := s.rows[a.row];
    && !r.word.locked
    && s' == SetBoth(s, t,
         if r.word.wts == a.ver.wts then Locking(th.job, th.n + 1) else Releasing(th.job, 0, th.n + 1, true),
         a.row, r.(word := r.word.(locked := true), owner := Held(t, th.n)))
  }

  /** try_lock fails: everything locked so far is released before the next attempt. */
  ghost predicate LockFails(s: State, s': State, t: nat) {
    && t < |s.threads|
    && var th := s.threads[t];
    && th.Locking? && th.n < |th.job.ws|
    && s' == SetThread(s, t, Releasing(th.job, 0, th.n, false))
  }

  ghost predicate ReleaseOne(s: State, s': State, t: nat) {
    && t < |s.threads|
    && var th := s.threads[t];
    && th.Releasing? && th.k < th.n <= |th.job.ws|
    && var x := th.job.ws[th.k].row;
    && x < |s.rows|
    && s' == SetBoth(s, t, Releasing(th.job, th.k + 1, th.n, th.abort), x, Unlock(s.rows[x]))
  }

  ghost predicate ReleaseDone(s: State, s': State, t: nat) {
    && t < |s.threads|
    && var th := s.threads[t];
    && th.Releasing? && th.k == th.n
    && s' == SetThread(s, t, if th.abort then Running([]) else Locking(th.job, 0))
  }

  /** Every write lock is held; the commit timestamp is raised above every lease. */
  ghost predicate AllLocked(s: State, s': State, t: nat) {
    && t < |s.threads|
    && var th := s.threads[t];
    && th.Locking? && th.n == |th.job.ws|
    && s' == SetThread(s, t, Raising(th.job, 0))
  }

  ghost predicate Raise(s: State, s': State, t: nat) {
    && t < |s.threads|
    && var th := s.threads[t];
    && th.Raising? && th.i < |th.job.ws|
    && var x := th.job.ws[th.i].row;
    && x < |s.rows|
    && var least := s.rows[x].word.Rts() + 1;
    && s' == SetThread(s, t, Raising(if least > th.job.cts then th.job.(cts := least) else th.job, th.i + 1))
  }

  ghost predicate RaiseDone(s: State, s': State, t: nat) {
    && t < |s.threads|
    && var th := s.threads[t];
    && th.Raising? && th.i == |th.job.ws|
    && s' == SetThread(s, t, Renewing(th.job, 0))
  }

  function AfterPlan(job: Job, j: nat, expected: Word, p: Plan): Thread {
    match p
    case Done(true) => Renewing(job, j + 1)
    case Done(false) => Releasing(job, 0, |job.ws|, true)
    case Swap(want, rebase) => Swapping(job, j, expected, want, rebase)
  }

  /** try_renew up to the decision taken on the word it loads. */
  ghost predicate Renew(s: State, s': State, t: nat) {
    && t < |s.threads|
    && var th := s.threads[t];
    && th.Renewing? && th.j < |th.job.rs|
    && var a := th.job.rs[th.j];
    && a.row < |s.rows|
    && s' == SetThread(s, t,
         if a.ver.rts >= th.job.cts then Renewing(th.job, th.j + 1)
         else AfterPlan(th.job, th.j, s.rows[a.row].word, Renewal(s.rows[a.row].word, a.ver.wts, th.job.cts)))
  }

  /** try_renew: the compare-and-swap finds the word it expects. */
  ghost predicate SwapWord(s: State, s': State, t: nat) {
    && t < |s.threads|
    && var th := s.threads[t];
    && th.Swapping? && th.j < |th.job.rs|
    && var x := th.job.rs[th.j].row;
    && x < |s.rows| && s.rows[x].word == th.expected
    && s' == SetBoth(s, t, Renewing(th.job, th.j + 1), x, s.rows[x].(word := th.want))
  }

  /** The retry would next shorten the lease it finds. */
  ghost predicate Shortens(s: State, t: nat)
    requires t < |s.threads| && s.threads[t].Swapping?
    requires s.threads[t].j < |s.threads[t].job.rs| && s.threads[t].job.rs[s.threads[t].j].row < |s.rows|
  {
    var th := s.threads[t];
    s.rows[th.job.rs[th.j].row].word.delta > th.want.delta
  }

  /** try_renew: the compare-and-swap fails (spuriously or not) and the loop decides again.
      Its decision to go on is followed here when that cannot shorten a lease. */
  ghost predicate SwapFails(s: State, s': State, t: nat) {
    && t < |s.threads|
    && var th := s.threads[t];
    && th.Swapping? && th.j < |th.job.rs|
    && var x := th.job.rs[th.j].row;
    && x < |s.rows|
    && var p := Retry(s.rows[x].word, th.want, th.rebase, th.job.cts);
    && (p.Swap? ==> !Shortens(s, t))
    && s' == SetThread(s, t, AfterPlan(th.job, th.j, s.rows[x].word, p))
  }

  /** What a committing transaction reports: every value its accesses returned, those of
      the rows it overwrites included, and every value it writes. */
  function TxnOf(job: Job): Txn { Txn(job.cts, Reads(job.ws + job.rs), Writes(job.ws)) }

  /** Validation has succeeded: the transaction is committed. */
  ghost predicate Commit(s: State, s': State, t: nat) {
    && t < |s.threads|
    && var th := s.threads[t];
    && th.Renewing? && th.j == |th.job.rs|
    && var txn := TxnOf(th.job);
    && s' == State(
         seq(|s.rows|, x requires 0 <= x < |s.rows| =>
           if x in txn.written
           then s.rows[x].(hist := s.rows[x].hist + [Version(th.job.cts, txn.written[x])], stage := Pending)
           else s.rows[x]),
         s.threads[t := Storing(th.job, 0)],
         Insert(s.order, txn),
         s.log + [txn])
  }

  /** write_data: store the new word, lock bit kept, before any cell is copied. */
  ghost predicate StoreWord(s: State, s': State, t: nat) {
    && t < |s.threads|
    && var th := s.threads[t];
    && th.Storing? && th.i < |th.job.ws|
    && var x := th.job.ws[th.i].row;
    && x < |s.rows|
    && s' == SetBoth(s, t, Installing(th.job, th.i, 0), x,
         s.rows[x].(word := Word(s.rows[x].word.locked, th.job.cts, 0), stage := Stored))
  }

  ghost predicate InstallCell(s: State, s': State, t: nat) {
    && t < |s.threads|
    && var th := s.threads[t];
    && th.Installing? && th.i < |th.job.ws|
    && var a := th.job.ws[th.i];
    && a.row < |s.rows|
    && var r := s.rows[a.row];
    && th.k < |r.data| && th.k < |a.data|
    && s' == SetBoth(s, t, Installing(th.job, th.i, th.k + 1), a.row, r.(data := r.data[th.k := a.data[th.k]]))
  }

  /** write_data is over; release. */
  ghost predicate InstallDone(s: State, s': State, t: nat) {
    && t < |s.threads|
    && var th := s.threads[t];
    && th.Installing? && th.i < |th.job.ws|
    && var x := th.job.ws[th.i].row;
    && x < |s.rows| && th.k == |s.rows[x].data|
    && s' == SetBoth(s, t, Storing(th.job, th.i + 1), x, Unlock(s.rows[x]).(stage := Clean))
  }

  ghost predicate Finish(s: State, s': State, t: nat) {
    && t < |s.threads|
    && var th := s.threads[t];
    && th.Storing? && th.i == |th.job.ws|
    && s' == SetThread(s, t, Running([]))
  }

  ghost predicate Step(s: State, s': State, t: nat) {
    || (exists x, w :: BeginRead(s, s', t, x, w))
    || CopyCell(s, s', t) || EndRead(s, s', t)
    || (exists k, v :: LocalWrite(s, s', t, k, v))
    || Rollback(s, s', t) || Validate(s, s', t) || PreAbort(s, s', t)
    || Lock(s, s', t) || LockFails(s, s', t) || ReleaseOne(s, s', t) || ReleaseDone(s, s', t)
    || AllLocked(s, s', t) || Raise(s, s', t) || RaiseDone(s, s', t)
    || Renew(s, s', t) || SwapWord(s, s', t) || SwapFails(s, s', t)
    || Commit(s, s', t)
    || StoreWord(s, s', t) || InstallCell(s, s', t) || InstallDone(s, s', t) || Finish(s, s', t)
  }

  /** Every row holds its initial version at timestamp 0 and every thread is idle. */
  ghost predicate Init(s: State, db: Db) {
    && |s.rows| == |db|
    && (forall x :: 0 <= x < |db| ==>
          s.rows[x] == Row(Word(false, 0, 0), db[x], [Version(0, db[x])], Free, Clean))
    && (forall t :: 0 <= t < |s.threads| ==> s.threads[t] == Running([]))
    && s.order == [] && s.log == []
  }
}
