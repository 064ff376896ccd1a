/** Every run of the TicToc protocol is serializable in commit-timestamp order. */
module TicTocProof {
  import opened Serial
  import opened Versions
  import opened SerialOrder
  import opened AccessList
  import opened Ledger
  import opened TicTocWord
  import opened TicToc
  import opened TicTocReports

  // ---------------------------------------------------------------- rows

  /** No version at or before `at` can be committed on this row any more. */
  ghost predicate Covered(r: Row, at: nat)
    requires r.hist != []
  {
    Last(r.hist).ts > at || r.word.Rts() >= at
  }

  /** The row's value as of `at` is `v`, for good. */
  ghost predicate Fixed(r: Row, at: nat, v: Val)
    requires r.hist != []
  {
    Covered(r, at) && ValueAt(r.hist, at) == v
  }

  /** The lease in the word belongs to the version that was current at its write timestamp. */
  ghost predicate LeaseOk(r: Row)
    requires r.hist != []
  {
    forall at :: r.word.wts <= at <= r.word.Rts() ==> Fixed(r, at, ValueAt(r.hist, r.word.wts))
  }

  ghost predicate RowOk(r: Row) {
    && Ascending(r.hist)
    && (forall i :: 0 <= i < |r.hist| ==> |r.hist[i].value| == |r.data|)
    && LeaseOk(r)
    && (r.word.locked <==> r.owner.Held?)
    && match r.stage
       case Clean => Last(r.hist).ts <= r.word.wts && r.data == Last(r.hist).value
       case Pending =>
         && |r.hist| > 1 && r.word.locked
         && r.hist[|r.hist| - 2].ts <= r.word.wts && r.word.Rts() < Last(r.hist).ts
         && r.data == r.hist[|r.hist| - 2].value
       case Stored => r.word.locked && r.word.wts == Last(r.hist).ts && r.word.delta == 0
  }

  /** What a row may do while a thread that does not hold it looks away. */
  ghost predicate Evolves(r: Row, r': Row)
    requires r.hist != []
  {
    && r'.hist != []
    && |r'.data| == |r.data|
    && r.word.wts <= r'.word.wts
    && (r.word.wts == r'.word.wts ==> r.word.Rts() <= r'.word.Rts())
    && (r.word.wts == r'.word.wts && !r.stage.Stored? ==> r'.data == r.data && !r'.stage.Stored?)
    && (forall at, v :: Fixed(r, at, v) ==> Fixed(r', at, v))
    && Last(r.hist).ts <= Last(r'.hist).ts
  }

  // ---------------------------------------------------------------- threads

  ghost predicate AccessOk(s: State, a: Access<Lease>) {
    && a.row < |s.rows|
    && s.rows[a.row].hist != []
    && |a.orig| == |a.data| == |s.rows[a.row].data|
    && a.ver.wts <= a.ver.rts
    && (forall at :: a.ver.wts <= at <= a.ver.rts ==> Fixed(s.rows[a.row], at, a.orig))
  }

  ghost predicate AccessesOk(s: State, acc: seq<Access<Lease>>) {
    forall i :: 0 <= i < |acc| ==> AccessOk(s, acc[i])
  }

  ghost predicate JobOk(s: State, job: Job) {
    && AccessesOk(s, job.ws) && AccessesOk(s, job.rs)
    && Distinct(job.ws)
    && Apart(job.ws, job.rs)
    && (forall j :: 0 <= j < |job.rs| ==> job.rs[j].ver.wts <= job.cts)
    && Distinct(job.rs)
  }

  ghost predicate CopyOk(s: State, th: Thread)
    requires th.Copying?
  {
    && th.row < |s.rows|
    && var r, v := s.rows[th.row], th.seenWord;
    && !v.locked && v.wts <= r.word.wts
    && |th.buf| <= |r.data|
    && (v.wts == r.word.wts ==>
          v.Rts() <= r.word.Rts() && !r.stage.Stored? && th.buf == r.data[..|th.buf|])
    && (forall i :: 0 <= i < |th.acc| ==> th.acc[i].row != th.row)
  }

  function Ws(th: Thread): seq<Access<Lease>> {
    if th.Running? || th.Copying? then [] else th.job.ws
  }

  /** The positions `Lo .. Hi` of its write set that a thread holds locked. */
  function Lo(th: Thread): nat {
    match th
    case Releasing(_, k, _, _) => k
    case Storing(_, i) => i
    case Installing(_, i, _) => i
    case _ => 0
  }

  function Hi(th: Thread): nat {
    match th
    case Running(_) => 0
    case Copying(_, _, _, _, _) => 0
    case Locking(_, n) => n
    case Releasing(_, _, n, _) => n
    case _ => |th.job.ws|
  }

  /** The thread holds the lock of position `i`, and nobody has committed a version on it. */
  ghost predicate Holds(s: State, t: nat, i: nat)
    requires t < |s.threads| && i < |Ws(s.threads[t])| && Ws(s.threads[t])[i].row < |s.rows|
  {
    s.rows[Ws(s.threads[t])[i].row].owner == Held(t, i)
  }

  /** The version locked at position `i` is the one the transaction read. */
  ghost predicate Current(s: State, a: Access<Lease>)
    requires a.row < |s.rows|
  {
    s.rows[a.row].word.wts == a.ver.wts && s.rows[a.row].stage.Clean?
  }

  /** The committed version of position `i` has not been stored yet. */
  ghost predicate Awaits(s: State, a: Access<Lease>, cts: nat)
    requires a.row < |s.rows|
  {
    var r := s.rows[a.row];
    r.stage.Pending? && r.hist != [] && Last(r.hist) == Version(cts, a.data)
  }

  ghost predicate HoldsOk(s: State, t: nat)
    requires t < |s.threads|
  {
    var th := s.threads[t];
    && Lo(th) <= Hi(th) <= |Ws(th)|
    && forall i :: Lo(th) <= i < Hi(th) ==>
         Ws(th)[i].row < |s.rows| && Holds(s, t, i)
         && (th.Releasing? || th.Locking? || th.Raising? || th.Renewing? || th.Swapping? ==>
               s.rows[Ws(th)[i].row].stage.Clean?)
  }

  ghost predicate RaisedOk(s: State, job: Job, m: nat)
    requires m <= |job.ws|
  {
    forall i :: 0 <= i < m ==> job.ws[i].row < |s.rows| && s.rows[job.ws[i].row].word.Rts() < job.cts
  }

  ghost predicate CurrentOk(s: State, job: Job, m: nat)
    requires m <= |job.ws|
  {
    forall i :: 0 <= i < m ==> job.ws[i].row < |s.rows| && Current(s, job.ws[i])
  }

  ghost predicate RenewedOk(s: State, job: Job, m: nat)
    requires m <= |job.rs|
  {
    forall j :: 0 <= j < m ==>
      job.rs[j].row < |s.rows| && s.rows[job.rs[j].row].hist != []
      && Fixed(s.rows[job.rs[j].row], job.cts, job.rs[j].orig)
  }

  ghost predicate SwapOk(s: State, th: Thread)
    requires th.Swapping?
  {
    && th.j < |th.job.rs|
    && !th.expected.locked && !th.want.locked
    && th.expected.wts == th.job.rs[th.j].ver.wts <= th.want.wts <= th.job.cts == th.want.Rts()
    && (th.rebase || th.want.wts == th.expected.wts)
    && th.expected.Rts() <= th.want.Rts()
  }

  ghost predicate AwaitsOk(s: State, job: Job, lo: nat) {
    forall i :: lo <= i < |job.ws| ==> job.ws[i].row < |s.rows| && Awaits(s, job.ws[i], job.cts)
  }

  ghost predicate InstallOk(s: State, th: Thread)
    requires th.Installing?
  {
    && th.i < |th.job.ws|
    && var a := th.job.ws[th.i];
    && a.row < |s.rows|
    && var r := s.rows[a.row];
    && r.stage.Stored? && r.hist != [] && Last(r.hist) == Version(th.job.cts, a.data)
    && th.k <= |r.data| == |a.data|
    && r.data[..th.k] == a.data[..th.k]
  }

  ghost predicate PhaseOk(s: State, th: Thread) {
    match th
    case Running(acc) => AccessesOk(s, acc) && Distinct(acc)
    case Copying(acc, _, _, _, _) => AccessesOk(s, acc) && Distinct(acc) && CopyOk(s, th)
    case Locking(job, n) => JobOk(s, job) && n <= |job.ws| && CurrentOk(s, job, n)
    case Releasing(job, k, n, _) => JobOk(s, job) && k <= n <= |job.ws|
    case Raising(job, i) =>
      JobOk(s, job) && i <= |job.ws| && CurrentOk(s, job, |job.ws|) && RaisedOk(s, job, i)
    case Renewing(job, j) =>
      && JobOk(s, job) && j <= |job.rs| && CurrentOk(s, job, |job.ws|)
      && RaisedOk(s, job, |job.ws|) && RenewedOk(s, job, j)
    case Swapping(job, j, _, _, _) =>
      && JobOk(s, job) && j < |job.rs| && CurrentOk(s, job, |job.ws|)
      && RaisedOk(s, job, |job.ws|) && RenewedOk(s, job, j) && SwapOk(s, th)
    case Storing(job, i) => JobOk(s, job) && i <= |job.ws| && AwaitsOk(s, job, i)
    case Installing(job, i, k) => JobOk(s, job) && i < |job.ws| && AwaitsOk(s, job, i + 1) && InstallOk(s, th)
  }

  ghost predicate ThreadOk(s: State, t: nat)
    requires t < |s.threads|
  {
    HoldsOk(s, t) && PhaseOk(s, s.threads[t])
  }

  /** A lock bit is held by exactly the position of exactly the thread it names. */
  ghost predicate OwnerOk(s: State, x: nat)
    requires x < |s.rows|
  {
    var o := s.rows[x].owner;
    o.Held? ==>
      && o.thd < |s.threads|
      && Lo(s.threads[o.thd]) <= o.slot < Hi(s.threads[o.thd]) <= |Ws(s.threads[o.thd])|
      && Ws(s.threads[o.thd])[o.slot].row == x
  }

  // ---------------------------------------------------------------- the serial order

  /** The transaction saw a row as of its timestamp, or right before it when it overwrites it. */
  ghost function ReadPoint(u: Txn, x: nat): nat {
    if x in u.written && u.ts > 0 then u.ts - 1 else u.ts
  }

  /** A committed transaction read what stays the value as of its timestamp. */
  ghost predicate TxnOk(s: State, u: Txn) {
    && (forall x :: x in u.seen ==>
          x < |s.rows| && s.rows[x].hist != [] && Fixed(s.rows[x], ReadPoint(u, x), u.seen[x]))
    && (forall x :: x in u.written ==>
          x < |s.rows| && s.rows[x].hist != [] && Last(s.rows[x].hist).ts >= u.ts)
  }

  /** The version histories of the rows. */
  ghost function HistoriesOf(s: State): Histories {
    seq(|s.rows|, x requires 0 <= x < |s.rows| => s.rows[x].hist)
  }

  ghost predicate OrderOk(s: State, db: Db) {
    && Follows(HistoriesOf(s), db, s.order, s.log)
    && (forall i :: 0 <= i < |s.order| ==> TxnOk(s, s.order[i]))
  }

  ghost predicate Inv(s: State, db: Db) {
    && (forall x :: 0 <= x < |s.rows| ==> RowOk(s.rows[x]) && OwnerOk(s, x))
    && (forall t :: 0 <= t < |s.threads| ==> ThreadOk(s, t))
    && OrderOk(s, db)
  }

  // ---------------------------------------------------------------- framing

  ghost predicate RowsEvolve(s: State, s': State) {
    && |s'.rows| == |s.rows|
    && forall x :: 0 <= x < |s.rows| ==> s.rows[x].hist != [] && Evolves(s.rows[x], s'.rows[x])
  }

  /** Only thread `t` moves, and rows held by other threads stay as they are. */
  ghost predicate OnlyMoves(s: State, s': State, t: nat) {
    && |s'.threads| == |s.threads|
    && (forall u :: 0 <= u < |s.threads| && u != t ==> s'.threads[u] == s.threads[u])
    && |s'.rows| == |s.rows|
    && (forall x :: 0 <= x < |s.rows| && s.rows[x].owner.Held? && s.rows[x].owner.thd != t ==> s'.rows[x] == s.rows[x])
  }

  lemma AccessKeeps(s: State, s': State, a: Access<Lease>)
    requires RowsEvolve(s, s') && AccessOk(s, a)
    ensures AccessOk(s', a)
  {
    assert Evolves(s.rows[a.row], s'.rows[a.row]);
  }

  lemma AccessesKeep(s: State, s': State, acc: seq<Access<Lease>>)
    requires RowsEvolve(s, s') && AccessesOk(s, acc)
    ensures AccessesOk(s', acc)
  {
    forall i | 0 <= i < |acc| ensures AccessOk(s', acc[i]) { AccessKeeps(s, s', acc[i]); }
  }

  lemma JobKeeps(s: State, s': State, job: Job)
    requires RowsEvolve(s, s') && JobOk(s, job)
    ensures JobOk(s', job)
  {
    AccessesKeep(s, s', job.ws);
    AccessesKeep(s, s', job.rs);
  }

  lemma CopyKeeps(s: State, s': State, th: Thread)
    requires RowsEvolve(s, s') && th.Copying? && CopyOk(s, th)
    ensures CopyOk(s', th)
  {
    assert Evolves(s.rows[th.row], s'.rows[th.row]);
  }

  lemma RenewedKeeps(s: State, s': State, job: Job, m: nat)
    requires RowsEvolve(s, s') && m <= |job.rs| && RenewedOk(s, job, m)
    ensures RenewedOk(s', job, m)
  {
    forall j | 0 <= j < m
      ensures s'.rows[job.rs[j].row].hist != [] && Fixed(s'.rows[job.rs[j].row], job.cts, job.rs[j].orig)
    {
      assert Evolves(s.rows[job.rs[j].row], s'.rows[job.rs[j].row]);
    }
  }

  /** A thread that does not move keeps its invariant. */
  lemma OthersKeep(s: State, s': State, t: nat, u: nat)
    requires u < |s.threads| && u != t && ThreadOk(s, u)
    requires RowsEvolve(s, s') && OnlyMoves(s, s', t)
    ensures ThreadOk(s', u)
  {
    hide AccessesOk, JobOk, CopyOk, RenewedOk;
    var th := s.threads[u];
    assert forall i :: Lo(th) <= i < Hi(th) ==> Holds(s, u, i) && s'.rows[Ws(th)[i].row] == s.rows[Ws(th)[i].row];
    assert HoldsOk(s', u);
    match th {
      case Running(acc) => AccessesKeep(s, s', acc);
      case Copying(acc, _, _, _, _) => AccessesKeep(s, s', acc); CopyKeeps(s, s', th);
      case Locking(job, n) => JobKeeps(s, s', job);
      case Releasing(job, k, n, _) => JobKeeps(s, s', job);
      case Raising(job, i) => JobKeeps(s, s', job);
      case Renewing(job, j) => JobKeeps(s, s', job); RenewedKeeps(s, s', job, j);
      case Swapping(job, j, _, _, _) => JobKeeps(s, s', job); RenewedKeeps(s, s', job, j);
      case Storing(job, i) => JobKeeps(s, s', job);
      case Installing(job, i, k) => JobKeeps(s, s', job);
    }
  }

  /** The serial order stays right as long as no version is committed. */
  lemma OrderKeeps(s: State, s': State, db: Db)
    requires OrderOk(s, db) && RowsEvolve(s, s')
    requires s'.order == s.order && s'.log == s.log
    requires forall x :: 0 <= x < |s.rows| ==> s'.rows[x].hist == s.rows[x].hist
    ensures OrderOk(s', db)
  {
    assert HistoriesOf(s') == HistoriesOf(s);
    forall i | 0 <= i < |s.order| ensures TxnOk(s', s'.order[i]) {
      TxnKeeps(s, s', s.order[i]);
    }
  }

  lemma TxnKeeps(s: State, s': State, u: Txn)
    requires TxnOk(s, u) && RowsEvolve(s, s')
    ensures TxnOk(s', u)
  {
    forall x | x in u.seen ensures s'.rows[x].hist != [] && Fixed(s'.rows[x], ReadPoint(u, x), u.seen[x]) {
      assert Evolves(s.rows[x], s'.rows[x]);
    }
    forall x | x in u.written ensures s'.rows[x].hist != [] && Last(s'.rows[x].hist).ts >= u.ts {
      assert Evolves(s.rows[x], s'.rows[x]);
    }
  }

  lemma Frame(s: State, s': State, t: nat, db: Db)
    requires Inv(s, db) && t < |s.threads|
    requires OnlyMoves(s, s', t) && RowsEvolve(s, s')
    requires s'.order == s.order && s'.log == s.log
    requires forall x :: 0 <= x < |s.rows| ==> s'.rows[x].hist == s.rows[x].hist
    requires ThreadOk(s', t)
    requires forall x :: 0 <= x < |s.rows| ==> RowOk(s'.rows[x]) && OwnerOk(s', x)
    ensures Inv(s', db)
  {
    forall u | 0 <= u < |s'.threads| ensures ThreadOk(s', u) {
      if u != t { OthersKeep(s, s', t, u); }
    }
    OrderKeeps(s, s', db);
  }

  /** A step that touches no row and keeps the locks of its thread. */
  lemma ThreadMoves(s: State, s': State, t: nat, th: Thread, db: Db)
    requires Inv(s, db) && t < |s.threads| && s' == SetThread(s, t, th)
    requires (Lo(th) == Lo(s.threads[t]) && Hi(th) == Hi(s.threads[t]))
           || (Lo(th) == Hi(th) && Lo(s.threads[t]) == Hi(s.threads[t]))
    requires Hi(th) <= |Ws(th)|
    requires Lo(th) < Hi(th) ==> Ws(th) == Ws(s.threads[t])
    requires Lo(th) < Hi(th) ==> (th.Storing? || th.Installing? <==> s.threads[t].Storing? || s.threads[t].Installing?)
    requires PhaseOk(s, th)
    ensures Inv(s', db)
  {
    hide PhaseOk, JobOk, AccessesOk, OrderOk, LeaseOk;
    assert ThreadOk(s, t);
    forall x | 0 <= x < |s.rows| ensures Evolves(s.rows[x], s'.rows[x]) && RowOk(s'.rows[x]) && OwnerOk(s', x) {
      assert RowOk(s.rows[x]) && OwnerOk(s, x);
    }
    assert HoldsOk(s', t);
    PhaseSameRows(s, s', th);
    Frame(s, s', t, db);
  }

  lemma JobSameRows(s: State, s': State, job: Job)
    requires s'.rows == s.rows && JobOk(s, job)
    ensures JobOk(s', job)
  {
    hide AccessOk;
    AccessSameRows(s, s');
  }

  lemma AccessSameRows(s: State, s': State)
    requires s'.rows == s.rows
    ensures forall a :: AccessOk(s, a) == AccessOk(s', a)
  {
  }

  lemma PhaseSameRows(s: State, s': State, th: Thread)
    requires s'.rows == s.rows && PhaseOk(s, th)
    ensures PhaseOk(s', th)
  {
    hide AccessOk, JobOk, Distinct;
    match th {
      case Running(acc) => AccessSameRows(s, s');
      case Copying(acc, _, _, _, _) => AccessSameRows(s, s');
      case Locking(job, _) => JobSameRows(s, s', job);
      case Releasing(job, _, _, _) => JobSameRows(s, s', job);
      case Raising(job, _) => JobSameRows(s, s', job);
      case Renewing(job, _) => JobSameRows(s, s', job);
      case Swapping(job, _, _, _, _) => JobSameRows(s, s', job);
      case Storing(job, _) => JobSameRows(s, s', job);
      case Installing(job, _, _) => JobSameRows(s, s', job);
    }
  }

  /** A step that changes one row which no other thread holds. */
  lemma RowMoves(s: State, s': State, t: nat, th: Thread, x: nat, r: Row, db: Db)
    requires Inv(s, db) && t < |s.threads| && x < |s.rows| && s' == SetBoth(s, t, th, x, r)
    requires s.rows[x].owner.Held? ==> s.rows[x].owner.thd == t
    requires RowOk(r) && r.hist == s.rows[x].hist && Evolves(s.rows[x], r)
    requires ThreadOk(s', t)
    requires OwnerOk(s', x)
    requires forall y :: 0 <= y < |s.rows| && y != x && s.rows[y].owner.Held? && s.rows[y].owner.thd == t ==> OwnerOk(s', y)
    ensures Inv(s', db)
  {
    hide OrderOk, PhaseOk, HoldsOk, RowOk;
    RowsEvolveBut(s, s', x);
    forall y | 0 <= y < |s.rows| ensures RowOk(s'.rows[y]) && OwnerOk(s', y) {
      assert RowOk(s.rows[y]) && OwnerOk(s, y);
    }
    Frame(s, s', t, db);
  }

  lemma RowsEvolveBut(s: State, s': State, x: nat)
    requires x < |s.rows| == |s'.rows|
    requires forall y :: 0 <= y < |s.rows| ==> RowOk(s.rows[y])
    requires forall y :: 0 <= y < |s.rows| && y != x ==> s'.rows[y] == s.rows[y]
    requires s.rows[x].hist != [] && Evolves(s.rows[x], s'.rows[x])
    ensures RowsEvolve(s, s')
  {
    forall y | 0 <= y < |s.rows| ensures s.rows[y].hist != [] && Evolves(s.rows[y], s'.rows[y]) {
      assert RowOk(s.rows[y]);
    }
  }

  // ---------------------------------------------------------------- executing

  lemma BeginReadKeeps(s: State, s': State, t: nat, x: nat, write: bool, db: Db)
    requires Inv(s, db) && BeginRead(s, s', t, x, write)
    ensures Inv(s', db)
  {
    assert ThreadOk(s, t) && RowOk(s.rows[x]);
    var th := Copying(s.threads[t].acc, x, write, s.rows[x].word, []);
    assert CopyOk(s, th);
    ThreadMoves(s, s', t, th, db);
  }

  lemma CopyCellKeeps(s: State, s': State, t: nat, db: Db)
    requires Inv(s, db) && CopyCell(s, s', t)
    ensures Inv(s', db)
  {
    assert ThreadOk(s, t);
    var th := s.threads[t];
    var data := s.rows[th.row].data;
    assert data[..|th.buf|] + [data[|th.buf|]] == data[..|th.buf| + 1];
    ThreadMoves(s, s', t, s'.threads[t], db);
  }

  /** The accepted copy is the one version named by the timestamp word. */
  lemma AcceptedCopy(s: State, t: nat, db: Db)
    requires Inv(s, db) && t < |s.threads| && s.threads[t].Copying?
    requires s.threads[t].row < |s.rows| && |s.threads[t].buf| == |s.rows[s.threads[t].row].data|
    requires s.rows[s.threads[t].row].word.wts == s.threads[t].seenWord.wts
    requires !s.rows[s.threads[t].row].word.locked
    ensures var th := s.threads[t];
      AccessOk(s, Access(th.write, th.row, Lease(th.seenWord.wts, th.seenWord.Rts()), th.buf, th.buf))
    ensures var th := s.threads[t];
      th.buf == Last(s.rows[th.row].hist).value
  {
    assert ThreadOk(s, t);
    var th := s.threads[t];
    var r := s.rows[th.row];
    assert RowOk(r);
    assert r.data[..|th.buf|] == r.data;
    AtLast(r.hist, r.word.wts);
  }

  lemma EndReadKeeps(s: State, s': State, t: nat, db: Db)
    requires Inv(s, db) && EndRead(s, s', t)
    ensures Inv(s', db)
  {
    assert ThreadOk(s, t);
    var th := s.threads[t];
    if s.rows[th.row].word.wts == th.seenWord.wts && s.rows[th.row].word.locked == th.seenWord.locked {
      AcceptedCopy(s, t, db);
    }
    ThreadMoves(s, s', t, s'.threads[t], db);
  }

  lemma LocalWriteKeeps(s: State, s': State, t: nat, k: nat, v: Val, db: Db)
    requires Inv(s, db) && LocalWrite(s, s', t, k, v)
    ensures Inv(s', db)
  {
    assert ThreadOk(s, t);
    ThreadMoves(s, s', t, s'.threads[t], db);
  }

  lemma RollbackKeeps(s: State, s': State, t: nat, db: Db)
    requires Inv(s, db) && Rollback(s, s', t)
    ensures Inv(s', db)
  {
    ThreadMoves(s, s', t, s'.threads[t], db);
  }

  lemma ValidateKeeps(s: State, s': State, t: nat, db: Db)
    requires Inv(s, db) && Validate(s, s', t)
    ensures Inv(s', db)
  {
    assert ThreadOk(s, t);
    var acc := s.threads[t].acc;
    var job := Job(Filter(acc, true), Filter(acc, false), CommitTs(acc));
    FilterDistinct(acc, true);
    FilterDistinct(acc, false);
    FilterApart(acc);
    forall i | 0 <= i < |job.ws| ensures AccessOk(s, job.ws[i]) { var k := FilterFrom(acc, true, i); }
    forall i | 0 <= i < |job.rs| ensures AccessOk(s, job.rs[i]) && job.rs[i].ver.wts <= job.cts {
      var k := FilterFrom(acc, false, i);
      assert acc[k] in acc;
    }
    ThreadMoves(s, s', t, s'.threads[t], db);
  }

  lemma PreAbortKeeps(s: State, s': State, t: nat, db: Db)
    requires Inv(s, db) && PreAbort(s, s', t)
    ensures Inv(s', db)
  {
    assert ThreadOk(s, t);
    ThreadMoves(s, s', t, s'.threads[t], db);
  }

  // ---------------------------------------------------------------- locking

  lemma LockRow(r: Row, r': Row, o: Owner)
    requires RowOk(r) && !r.word.locked && o.Held?
    requires r' == r.(word := r.word.(locked := true), owner := o)
    ensures RowOk(r') && Evolves(r, r')
  {
    assert forall at :: Covered(r, at) == Covered(r', at);
    assert forall at, v :: Fixed(r', at, v) == Fixed(r, at, v);
  }

  lemma LockThread(s: State, s': State, t: nat)
    requires Lock(s, s', t) && ThreadOk(s, t) && RowsEvolve(s, s')
    requires RowOk(s.rows[s.threads[t].job.ws[s.threads[t].n].row])
    ensures ThreadOk(s', t)
  {
    hide JobOk, LeaseOk, RowsEvolve, Ascending;
    var th := s.threads[t];
    JobKeeps(s, s', th.job);
    assert forall i :: 0 <= i < th.n ==> Holds(s, t, i) && s'.rows[th.job.ws[i].row] == s.rows[th.job.ws[i].row];
    assert forall i :: 0 <= i < th.n ==> Current(s, th.job.ws[i]);
  }

  lemma LockKeeps(s: State, s': State, t: nat, db: Db)
    requires Inv(s, db) && Lock(s, s', t)
    ensures Inv(s', db)
  {
    hide PhaseOk, HoldsOk, JobOk, OrderOk, LeaseOk, Evolves;
    assert ThreadOk(s, t);
    var th := s.threads[t];
    var a := th.job.ws[th.n];
    assert RowOk(s.rows[a.row]) && OwnerOk(s, a.row);
    LockRow(s.rows[a.row], s'.rows[a.row], Held(t, th.n));
    RowsEvolveBut(s, s', a.row);
    LockThread(s, s', t);
    RowMoves(s, s', t, s'.threads[t], a.row, s'.rows[a.row], db);
  }

  lemma LockFailsKeeps(s: State, s': State, t: nat, db: Db)
    requires Inv(s, db) && LockFails(s, s', t)
    ensures Inv(s', db)
  {
    assert ThreadOk(s, t);
    ThreadMoves(s, s', t, s'.threads[t], db);
  }

  lemma UnlockRowOk(r: Row)
    requires RowOk(r) && r.stage.Clean?
    ensures RowOk(Unlock(r)) && Evolves(r, Unlock(r))
  {
    var r' := Unlock(r);
    assert forall at, v :: Fixed(r', at, v) == Fixed(r, at, v);
  }

  /** Writing one held row leaves the other held rows alone. */
  lemma OtherHolds(s: State, s': State, t: nat, i: nat, th: Thread, r: Row)
    requires t < |s.threads| && HoldsOk(s, t) && Distinct(Ws(s.threads[t]))
    requires Lo(s.threads[t]) <= i < Hi(s.threads[t])
    requires s' == SetBoth(s, t, th, Ws(s.threads[t])[i].row, r)
    ensures forall m :: Lo(s.threads[t]) <= m < Hi(s.threads[t]) && m != i ==>
              Ws(s.threads[t])[m].row < |s.rows|
              && s'.rows[Ws(s.threads[t])[m].row] == s.rows[Ws(s.threads[t])[m].row]
              && s.rows[Ws(s.threads[t])[m].row].owner == Held(t, m)
  {
    assert Holds(s, t, i);
    forall m | Lo(s.threads[t]) <= m < Hi(s.threads[t]) && m != i
      ensures Ws(s.threads[t])[m].row != Ws(s.threads[t])[i].row && Holds(s, t, m)
    {
      if m < i { assert Ws(s.threads[t])[m].row != Ws(s.threads[t])[i].row; }
    }
  }

  /** Rows owned by `t` are still owned after it wrote one of them. */
  lemma OwnersStay(s: State, s': State, t: nat, x: nat, th: Thread, r: Row)
    requires t < |s.threads| && x < |s.rows| && s' == SetBoth(s, t, th, x, r)
    requires forall y :: 0 <= y < |s.rows| ==> OwnerOk(s, y)
    requires Ws(th) == Ws(s.threads[t]) && Hi(th) == Hi(s.threads[t])
    requires forall y :: 0 <= y < |s.rows| && y != x && s.rows[y].owner.Held? && s.rows[y].owner.thd == t ==>
               Lo(th) <= s.rows[y].owner.slot
    ensures forall y :: 0 <= y < |s.rows| && y != x && s.rows[y].owner.Held? && s.rows[y].owner.thd == t ==> OwnerOk(s', y)
  {
    forall y | 0 <= y < |s.rows| && y != x && s.rows[y].owner.Held? && s.rows[y].owner.thd == t ensures OwnerOk(s', y) {
      assert OwnerOk(s, y);
    }
  }

  lemma ReleaseOneThread(s: State, s': State, t: nat)
    requires ReleaseOne(s, s', t) && ThreadOk(s, t) && RowsEvolve(s, s')
    ensures ThreadOk(s', t)
  {
    var th := s.threads[t];
    OtherHolds(s, s', t, th.k, s'.threads[t], s'.rows[th.job.ws[th.k].row]);
    JobKeeps(s, s', th.job);
  }

  lemma ReleaseOneKeeps(s: State, s': State, t: nat, db: Db)
    requires Inv(s, db) && ReleaseOne(s, s', t)
    ensures Inv(s', db)
  {
    hide OrderOk, PhaseOk;
    assert ThreadOk(s, t);
    var th := s.threads[t];
    var x := th.job.ws[th.k].row;
    assert Holds(s, t, th.k) && RowOk(s.rows[x]);
    UnlockRowOk(s.rows[x]);
    RowsEvolveBut(s, s', x);
    ReleaseOneThread(s, s', t);
    forall y | 0 <= y < |s.rows| && y != x && s.rows[y].owner.Held? && s.rows[y].owner.thd == t
      ensures th.k + 1 <= s.rows[y].owner.slot
    {
      assert OwnerOk(s, y);
    }
    OwnersStay(s, s', t, x, s'.threads[t], s'.rows[x]);
    RowMoves(s, s', t, s'.threads[t], x, s'.rows[x], db);
  }

  lemma ReleaseDoneKeeps(s: State, s': State, t: nat, db: Db)
    requires Inv(s, db) && ReleaseDone(s, s', t)
    ensures Inv(s', db)
  {
    assert ThreadOk(s, t);
    ThreadMoves(s, s', t, s'.threads[t], db);
  }

  // ---------------------------------------------------------------- validating

  lemma AllLockedKeeps(s: State, s': State, t: nat, db: Db)
    requires Inv(s, db) && AllLocked(s, s', t)
    ensures Inv(s', db)
  {
    assert ThreadOk(s, t);
    ThreadMoves(s, s', t, s'.threads[t], db);
  }

  lemma RaisePhase(s: State, s': State, t: nat)
    requires Raise(s, s', t) && PhaseOk(s, s.threads[t])
    ensures PhaseOk(s, s'.threads[t])
  {
    hide AccessesOk, Distinct, Apart;
  }

  lemma RaiseKeeps(s: State, s': State, t: nat, db: Db)
    requires Inv(s, db) && Raise(s, s', t)
    ensures Inv(s', db)
  {
    hide OrderOk, RowOk, PhaseOk;
    assert ThreadOk(s, t);
    RaisePhase(s, s', t);
    ThreadMoves(s, s', t, s'.threads[t], db);
  }

  lemma RaiseDoneKeeps(s: State, s': State, t: nat, db: Db)
    requires Inv(s, db) && RaiseDone(s, s', t)
    ensures Inv(s', db)
  {
    assert ThreadOk(s, t);
    ThreadMoves(s, s', t, s'.threads[t], db);
  }

  /** An access whose version is still named by the word shares the word's lease. */
  lemma LeaseCovers(s: State, a: Access<Lease>, at: nat)
    requires AccessOk(s, a) && RowOk(s.rows[a.row])
    requires s.rows[a.row].word.wts == a.ver.wts <= at <= s.rows[a.row].word.Rts()
    ensures Fixed(s.rows[a.row], at, a.orig)
  {
    assert Fixed(s.rows[a.row], a.ver.wts, a.orig);
  }

  lemma RenewKeeps(s: State, s': State, t: nat, db: Db)
    requires Inv(s, db) && Renew(s, s', t)
    ensures Inv(s', db)
  {
    hide OrderOk;
    assert ThreadOk(s, t);
    var th := s.threads[t];
    var a := th.job.rs[th.j];
    assert AccessOk(s, a) && RowOk(s.rows[a.row]);
    if s'.threads[t].Renewing? {
      if a.ver.rts < th.job.cts { LeaseCovers(s, a, th.job.cts); }
      assert Fixed(s.rows[a.row], th.job.cts, a.orig);
    }
    ThreadMoves(s, s', t, s'.threads[t], db);
  }

  lemma SwapWordKeeps(s: State, s': State, t: nat, db: Db)
    requires Inv(s, db) && SwapWord(s, s', t)
    ensures Inv(s', db)
  {
    assert ThreadOk(s, t);
    var th := s.threads[t];
    var a := th.job.rs[th.j];
    var r, r' := s.rows[a.row], s'.rows[a.row];
    assert AccessOk(s, a) && RowOk(r);
    RenewedRow(r, r', th.want);
    RowsEvolveBut(s, s', a.row);
    SwapRenews(s, s', t);
    forall y | 0 <= y < |s.rows| && y != a.row && s.rows[y].owner.Held? && s.rows[y].owner.thd == t ensures OwnerOk(s', y) {
      assert OwnerOk(s, y);
    }
    RowMoves(s, s', t, s'.threads[t], a.row, r', db);
  }

  lemma SwapRenews(s: State, s': State, t: nat)
    requires t < |s.threads| && SwapWord(s, s', t) && ThreadOk(s, t)
    requires forall x :: 0 <= x < |s.rows| ==> RowOk(s.rows[x])
    requires RowsEvolve(s, s')
    ensures ThreadOk(s', t)
  {
    hide JobOk, AccessOk, LeaseOk, Fixed, RenewedOk, HoldsOk, CurrentOk, RaisedOk, RowOk, RowsEvolve, Evolves;
    var th := s.threads[t];
    var a := th.job.rs[th.j];
    var r, r' := s.rows[a.row], s'.rows[a.row];
    assert RowOk(r);
    SwapAccess(s, th);
    JobKeeps(s, s', th.job);
    RenewedKeeps(s, s', th.job, th.j);
    RenewedRow(r, r', th.want);
    SwapStarts(s, th);
    SwapFixes(r, r', a, th.job.cts);
    RenewedNext(s', th.job, th.j);
    SwapHolds(s, s', t);
  }

  /** The rows of the write set are locked, so none of them is the one being renewed. */
  lemma SwapHolds(s: State, s': State, t: nat)
    requires t < |s.threads| && SwapWord(s, s', t) && ThreadOk(s, t)
    requires RowOk(s.rows[s.threads[t].job.rs[s.threads[t].j].row])
    ensures var job := s.threads[t].job; HoldsOk(s', t) && CurrentOk(s', job, |job.ws|) && RaisedOk(s', job, |job.ws|)
  {
    hide JobOk, LeaseOk, RenewedOk, Ascending;
    var th := s.threads[t];
    assert forall i :: 0 <= i < |th.job.ws| ==> Holds(s, t, i) && s'.rows[th.job.ws[i].row] == s.rows[th.job.ws[i].row];
    assert forall i :: 0 <= i < |th.job.ws| ==> Current(s, th.job.ws[i]);
  }

  lemma SwapStarts(s: State, th: Thread)
    requires th.Swapping? && PhaseOk(s, th)
    ensures var a := th.job.rs[th.j]; a.ver.wts == th.expected.wts && a.row < |s.rows| && s.rows[a.row].hist != [] && Fixed(s.rows[a.row], a.ver.wts, a.orig)
  {
    hide Fixed;
    assert AccessOk(s, th.job.rs[th.j]);
  }

  lemma RenewedNext(s: State, job: Job, j: nat)
    requires j < |job.rs| && RenewedOk(s, job, j)
    requires job.rs[j].row < |s.rows| && s.rows[job.rs[j].row].hist != [] && Fixed(s.rows[job.rs[j].row], job.cts, job.rs[j].orig)
    ensures RenewedOk(s, job, j + 1)
  {
    hide Fixed;
  }

  /** A successful swap gives the read a lease that ends at the commit timestamp: the value it
      copied is the row's value there, for good, and no value that was fixed on any row before
      is given up. */
  lemma SwapExtends(s: State, s': State, t: nat, db: Db)
    requires Inv(s, db) && SwapWord(s, s', t)
    ensures var a, cts := s.threads[t].job.rs[s.threads[t].j], s.threads[t].job.cts;
      && s'.rows[a.row].hist != [] && s'.rows[a.row].word.Rts() == cts && Fixed(s'.rows[a.row], cts, a.orig)
      && forall x, at, v :: 0 <= x < |s.rows| && s.rows[x].hist != [] && Fixed(s.rows[x], at, v) ==>
           s'.rows[x].hist != [] && Fixed(s'.rows[x], at, v)
  {
    hide OrderOk, HoldsOk, JobOk, CurrentOk, RaisedOk, RenewedOk, Fixed;
    var th := s.threads[t];
    var a := th.job.rs[th.j];
    var r, r' := s.rows[a.row], s'.rows[a.row];
    assert ThreadOk(s, t) && RowOk(r);
    SwapAccess(s, th);
    RenewedRow(r, r', th.want);
    SwapFixes(r, r', a, th.job.cts);
  }

  lemma SwapAccess(s: State, th: Thread)
    requires th.Swapping? && PhaseOk(s, th)
    ensures AccessOk(s, th.job.rs[th.j])
  {
  }

  lemma SwapFixes(r: Row, r': Row, a: Access<Lease>, cts: nat)
    requires RowOk(r) && RowOk(r') && Evolves(r, r') && r'.hist == r.hist && a.ver.wts <= r.word.wts <= r'.word.wts <= cts
    requires a.ver.wts == r.word.wts && r'.word.Rts() == cts && Fixed(r, a.ver.wts, a.orig) && !r.word.locked
    ensures Fixed(r', cts, a.orig)
  {
    hide LeaseOk;
    AtLast(r.hist, a.ver.wts);
    AtLast(r.hist, cts);
  }

  /** Extending the lease of an unlocked row, moving the write timestamp or not. */
  lemma RenewedRow(r: Row, r': Row, want: Word)
    requires RowOk(r) && !r.word.locked && !want.locked && r' == r.(word := want)
    requires r.word.wts <= want.wts && r.word.Rts() <= want.Rts()
    ensures RowOk(r') && Evolves(r, r')
  {
    forall at | want.wts <= at <= want.Rts() ensures Fixed(r', at, ValueAt(r.hist, want.wts)) {
      AtLast(r.hist, at);
      AtLast(r.hist, want.wts);
    }
    forall at, v | Fixed(r, at, v) ensures Fixed(r', at, v) {}
  }

  lemma SwapFailsPhase(s: State, s': State, t: nat)
    requires SwapFails(s, s', t) && ThreadOk(s, t) && RowOk(s.rows[s.threads[t].job.rs[s.threads[t].j].row])
    ensures PhaseOk(s, s'.threads[t])
  {
    hide JobOk, HoldsOk, RowOk, Fixed;
    var th := s.threads[t];
    var a := th.job.rs[th.j];
    SwapAccess(s, th);
    if s'.threads[t].Renewing? { LeaseCovers(s, a, th.job.cts); }
  }

  lemma SwapFailsKeeps(s: State, s': State, t: nat, db: Db)
    requires Inv(s, db) && SwapFails(s, s', t)
    ensures Inv(s', db)
  {
    hide OrderOk, RowOk, PhaseOk, Retry;
    assert ThreadOk(s, t);
    var th := s.threads[t];
    assert RowOk(s.rows[th.job.rs[th.j].row]);
    SwapFailsPhase(s, s', t);
    ThreadMoves(s, s', t, s'.threads[t], db);
  }

  // ---------------------------------------------------------------- committing

  /** A row locked, current and out of lease accepts a version at `cts`. */
  lemma CommittedRow(r: Row, r': Row, cts: nat, v: Val)
    requires RowOk(r) && r.stage.Clean? && r.word.locked && r.word.Rts() < cts && |v| == |r.data|
    requires r' == r.(hist := r.hist + [Version(cts, v)], stage := Pending)
    ensures RowOk(r') && Evolves(r, r')
  {
    hide ValueAt;
    forall at: nat ensures ValueAt(r'.hist, at) == if at < cts then ValueAt(r.hist, at) else v {
      Append(r.hist, Version(cts, v), at);
    }
    forall at: nat, w | Fixed(r, at, w) ensures Fixed(r', at, w) {}
    forall at: nat | r.word.wts <= at <= r.word.Rts() ensures Fixed(r', at, ValueAt(r'.hist, r.word.wts)) {
      assert Fixed(r, at, ValueAt(r.hist, r.word.wts));
    }
  }

  ghost predicate RowsOk(s: State) {
    forall x :: 0 <= x < |s.rows| ==> RowOk(s.rows[x])
  }

  /** Validation is over and every lease and lock is in hand. */
  ghost predicate Validated(s: State, t: nat) {
    && t < |s.threads| && s.threads[t].Renewing? && s.threads[t].j == |s.threads[t].job.rs|
    && ThreadOk(s, t) && RowsOk(s)
  }

  /** What a validated transaction knows about a row of its write set. */
  lemma WriteRow(s: State, t: nat, i: nat)
    requires Validated(s, t) && i < |s.threads[t].job.ws|
    ensures var a, cts := s.threads[t].job.ws[i], s.threads[t].job.cts;
      && a.row < |s.rows|
      && var r := s.rows[a.row];
      && RowOk(r) && r.owner == Held(t, i) && r.word.locked && r.stage.Clean? && r.word.Rts() < cts
      && |a.data| == |r.data| && Last(r.hist).ts < cts && ValueAt(r.hist, cts) == a.orig
  {
    var a, cts := s.threads[t].job.ws[i], s.threads[t].job.cts;
    assert Holds(s, t, i) && AccessOk(s, a) && Current(s, a) && RowOk(s.rows[a.row]);
    AtLast(s.rows[a.row].hist, cts);
    AtLast(s.rows[a.row].hist, a.ver.wts);
    assert Fixed(s.rows[a.row], a.ver.wts, a.orig);
  }

  lemma CommitRow(s: State, s': State, t: nat, x: nat)
    requires Commit(s, s', t) && Validated(s, t) && x < |s.rows|
    ensures RowOk(s'.rows[x]) && Evolves(s.rows[x], s'.rows[x])
    ensures s.rows[x].owner.Held? && s.rows[x].owner.thd != t ==> s'.rows[x] == s.rows[x]
    ensures s'.rows[x].owner == s.rows[x].owner
  {
    assert RowOk(s.rows[x]);
    var job := s.threads[t].job;
    if x in Writes(job.ws) {
      var i := WriteSlot(job.ws, x);
      WriteRow(s, t, i);
      CommittedRow(s.rows[x], s'.rows[x], job.cts, job.ws[i].data);
    }
  }

  lemma CommitRows(s: State, s': State, t: nat)
    requires Commit(s, s', t) && Validated(s, t)
    ensures RowsEvolve(s, s') && OnlyMoves(s, s', t) && RowsOk(s')
  {
    forall x | 0 <= x < |s.rows|
      ensures RowOk(s.rows[x]) && RowOk(s'.rows[x]) && Evolves(s.rows[x], s'.rows[x])
      ensures s.rows[x].owner.Held? && s.rows[x].owner.thd != t ==> s'.rows[x] == s.rows[x]
    {
      CommitRow(s, s', t, x);
    }
  }

  lemma CommitSlot(s: State, s': State, t: nat, i: nat)
    requires Commit(s, s', t) && Validated(s, t) && i < |s.threads[t].job.ws|
    ensures s.threads[t].job.ws[i].row < |s'.rows|
    ensures Awaits(s', s.threads[t].job.ws[i], s.threads[t].job.cts)
    ensures s'.rows[s.threads[t].job.ws[i].row].owner == Held(t, i)
  {
    WriteRow(s, t, i);
    WrittenIs(s.threads[t].job.ws, i);
  }

  lemma CommitThread(s: State, s': State, t: nat)
    requires Commit(s, s', t) && Validated(s, t) && RowsEvolve(s, s')
    ensures ThreadOk(s', t)
  {
    hide JobOk, RowOk, Ascending, TxnOf, Insert;
    var job := s.threads[t].job;
    JobKeeps(s, s', job);
    forall i | 0 <= i < |job.ws|
      ensures job.ws[i].row < |s'.rows| && Awaits(s', job.ws[i], job.cts) && s'.rows[job.ws[i].row].owner == Held(t, i)
    {
      CommitSlot(s, s', t, i);
    }
    assert AwaitsOk(s', job, 0);
    assert HoldsOk(s', t);
    assert PhaseOk(s', Storing(job, 0));
  }

  /** The value a validated access returned is the row's value as of the commit timestamp. */
  lemma SeenIs(s: State, t: nat, x: nat)
    requires Validated(s, t) && x in TxnOf(s.threads[t].job).seen
    ensures x < |s.rows| && RowOk(s.rows[x])
    ensures ValueAt(s.rows[x].hist, s.threads[t].job.cts) == TxnOf(s.threads[t].job).seen[x]
    ensures x !in TxnOf(s.threads[t].job).written ==>
              Fixed(s.rows[x], s.threads[t].job.cts, TxnOf(s.threads[t].job).seen[x])
  {
    hide LeaseOk, Reads, Writes, IndexAt, Filter;
    var job := s.threads[t].job;
    var i := ReadSlot(job.ws + job.rs, x);
    if i < |job.ws| {
      WriteRow(s, t, i);
      WritesHas(job.ws, i);
    } else {
      var a := job.rs[i - |job.ws|];
      assert AccessOk(s, a);
      assert Fixed(s.rows[x], job.cts, a.orig);
    }
  }

  /** The transaction read the database as of its commit timestamp. */
  lemma CommitIsLegal(s: State, t: nat, db: Db)
    requires Validated(s, t) && Agrees(HistoriesOf(s), db, s.order, s.threads[t].job.cts)
    ensures Legal(At(db, s.order, s.threads[t].job.cts), TxnOf(s.threads[t].job))
  {
    var txn := TxnOf(s.threads[t].job);
    forall x | x in txn.seen ensures x < |db| && txn.seen[x] == At(db, s.order, txn.ts)[x] {
      SeenIs(s, t, x);
    }
  }

  /** Nothing committed at a later timestamp has looked at the rows being written. */
  lemma CommitIsUntouched(s: State, t: nat, u: Txn)
    requires Validated(s, t) && TxnOk(s, u) && u.ts > s.threads[t].job.cts
    ensures Untouched(TxnOf(s.threads[t].job), u)
  {
    var job := s.threads[t].job;
    forall x | x in TxnOf(job).written ensures x !in u.seen && x !in u.written {
      var i := WriteSlot(job.ws, x);
      WriteRow(s, t, i);
    }
  }

  lemma CommitAppends(s: State, s': State, t: nat)
    requires Commit(s, s', t)
    ensures Appends(HistoriesOf(s), HistoriesOf(s'), TxnOf(s.threads[t].job))
  {
    hide Reads, Writes, Insert;
  }

  lemma CommitOrders(s: State, s': State, t: nat, db: Db)
    requires Commit(s, s', t) && Validated(s, t) && OrderOk(s, db) && RowsEvolve(s, s')
    ensures OrderOk(s', db)
  {
    hide TxnOk, Agrees, Replays, Legal, Untouched, Reads, Writes, Appends, Insert, RowsEvolve;
    var txn := TxnOf(s.threads[t].job);
    assert txn.ts == s.threads[t].job.cts && Agrees(HistoriesOf(s), db, s.order, txn.ts);
    CommitIsLegal(s, t, db);
    forall i | 0 <= i < |s.order| && s.order[i].ts > txn.ts ensures Untouched(txn, s.order[i]) {
      CommitIsUntouched(s, t, s.order[i]);
    }
    CommitAppends(s, s', t);
    CommitFollows(HistoriesOf(s), HistoriesOf(s'), db, s.order, s.log, txn);
    CommitTxns(s, s', t);
  }

  lemma CommitTxns(s: State, s': State, t: nat)
    requires Commit(s, s', t) && Validated(s, t) && RowsEvolve(s, s')
    requires forall i :: 0 <= i < |s.order| ==> TxnOk(s, s.order[i])
    ensures forall i :: 0 <= i < |s'.order| ==> TxnOk(s', s'.order[i])
  {
    hide TxnOk, PhaseOk, HoldsOk, RowOk, TxnOf, Insert;
    var txn := TxnOf(s.threads[t].job);
    NewTxnOk(s, s', t);
    InsertMembers(s.order, txn);
    forall i | 0 <= i < |s'.order| ensures TxnOk(s', s'.order[i]) {
      if s'.order[i] != txn {
        var j :| 0 <= j < |s.order| && s.order[j] == s'.order[i];
        TxnKeeps(s, s', s.order[j]);
      }
    }
  }

  /** What the committed transaction saw is fixed: right before its own version where it has
      written one. */
  lemma NewSeen(s: State, s': State, t: nat, x: nat)
    requires Commit(s, s', t) && Validated(s, t) && RowsEvolve(s, s') && x in TxnOf(s.threads[t].job).seen
    ensures var txn := TxnOf(s.threads[t].job);
            x < |s.rows| && s'.rows[x].hist != [] && Fixed(s'.rows[x], ReadPoint(txn, x), txn.seen[x])
  {
    hide LeaseOk, Insert, Reads, RowOk, JobOk, PhaseOk, HoldsOk;
    var job := s.threads[t].job;
    SeenIs(s, t, x);
    if x in TxnOf(job).written {
      var i := WriteSlot(job.ws, x);
      WriteRow(s, t, i);
      AtLast(s.rows[x].hist, job.cts);
      AtLast(s.rows[x].hist, job.cts - 1);
      Append(s.rows[x].hist, Version(job.cts, TxnOf(job).written[x]), job.cts - 1);
    } else {
      assert Evolves(s.rows[x], s'.rows[x]);
    }
  }

  lemma NewTxnOk(s: State, s': State, t: nat)
    requires Commit(s, s', t) && Validated(s, t) && RowsEvolve(s, s')
    ensures TxnOk(s', TxnOf(s.threads[t].job))
  {
    hide Fixed, ReadPoint, RowsEvolve, Insert, Reads;
    var job := s.threads[t].job;
    var txn := TxnOf(job);
    forall x | x in txn.seen
      ensures x < |s.rows| && s'.rows[x].hist != [] && Fixed(s'.rows[x], ReadPoint(txn, x), txn.seen[x])
    {
      NewSeen(s, s', t, x);
    }
    forall x | x in txn.written ensures x < |s.rows| && s'.rows[x].hist != [] && Last(s'.rows[x].hist).ts >= txn.ts {
      var i := WriteSlot(job.ws, x);
      WriteRow(s, t, i);
    }
  }

  lemma CommitKeeps(s: State, s': State, t: nat, db: Db)
    requires Inv(s, db) && Commit(s, s', t)
    ensures Inv(s', db)
  {
    assert ThreadOk(s, t);
    assert Validated(s, t);
    CommitRows(s, s', t);
    CommitThread(s, s', t);
    CommitOrders(s, s', t, db);
    forall u | 0 <= u < |s'.threads| ensures ThreadOk(s', u) {
      if u != t { OthersKeep(s, s', t, u); }
    }
    CommitOwners(s, s', t);
  }

  lemma CommitOwners(s: State, s': State, t: nat)
    requires Commit(s, s', t) && Validated(s, t)
    requires forall x :: 0 <= x < |s.rows| ==> OwnerOk(s, x)
    ensures forall x :: 0 <= x < |s'.rows| ==> OwnerOk(s', x)
  {
    hide RowOk, PhaseOk, HoldsOk;
    forall x | 0 <= x < |s.rows| ensures OwnerOk(s', x) {
      assert OwnerOk(s, x);
      CommitRow(s, s', t, x);
    }
  }

  // ---------------------------------------------------------------- installing

  lemma StoredRow(r: Row, r': Row)
    requires RowOk(r) && r.stage.Pending?
    requires r' == r.(word := Word(true, Last(r.hist).ts, 0), stage := Stored)
    ensures RowOk(r') && Evolves(r, r')
  {
    AtLast(r.hist, Last(r.hist).ts);
    forall at: nat, v | Fixed(r, at, v) ensures Fixed(r', at, v) {}
  }

  lemma StoreWordThread(s: State, s': State, t: nat)
    requires StoreWord(s, s', t) && ThreadOk(s, t) && RowsEvolve(s, s')
    ensures ThreadOk(s', t)
  {
    var th := s.threads[t];
    var a := th.job.ws[th.i];
    assert Awaits(s, a, th.job.cts) && AccessOk(s, a) && Holds(s, t, th.i);
    OtherHolds(s, s', t, th.i, s'.threads[t], s'.rows[a.row]);
    JobKeeps(s, s', th.job);
    assert forall i :: th.i < i < |th.job.ws| ==> Awaits(s, th.job.ws[i], th.job.cts);
  }

  lemma StoreWordKeeps(s: State, s': State, t: nat, db: Db)
    requires Inv(s, db) && StoreWord(s, s', t)
    ensures Inv(s', db)
  {
    assert ThreadOk(s, t);
    var th := s.threads[t];
    var a := th.job.ws[th.i];
    var r, r' := s.rows[a.row], s'.rows[a.row];
    assert Holds(s, t, th.i) && Awaits(s, a, th.job.cts) && RowOk(r) && OwnerOk(s, a.row);
    StoredRow(r, r');
    RowsEvolveBut(s, s', a.row);
    StoreWordThread(s, s', t);
    forall y | 0 <= y < |s.rows| && y != a.row && s.rows[y].owner.Held? && s.rows[y].owner.thd == t
      ensures th.i <= s.rows[y].owner.slot
    {
      assert OwnerOk(s, y);
    }
    OwnersStay(s, s', t, a.row, s'.threads[t], r');
    RowMoves(s, s', t, s'.threads[t], a.row, r', db);
  }

  /** Changing only data, lock or stage of a row leaves every snapshot alone. */
  lemma SameLease(r: Row, r': Row)
    requires r.hist != [] && r'.hist == r.hist && r'.word.wts == r.word.wts && r'.word.delta == r.word.delta
    ensures forall at: nat, v :: Fixed(r', at, v) == Fixed(r, at, v)
    ensures LeaseOk(r) ==> LeaseOk(r')
  {
  }

  lemma InstallCellThread(s: State, s': State, t: nat)
    requires InstallCell(s, s', t) && ThreadOk(s, t) && RowsEvolve(s, s')
    ensures ThreadOk(s', t)
  {
    var th := s.threads[t];
    var a := th.job.ws[th.i];
    var r, r' := s.rows[a.row], s'.rows[a.row];
    assert r'.data[..th.k + 1] == a.data[..th.k] + [a.data[th.k]];
    assert a.data[..th.k + 1] == a.data[..th.k] + [a.data[th.k]];
    assert Holds(s, t, th.i);
    OtherHolds(s, s', t, th.i, s'.threads[t], r');
    JobKeeps(s, s', th.job);
    assert forall i :: th.i < i < |th.job.ws| ==> Awaits(s, th.job.ws[i], th.job.cts);
  }

  /** What an installing thread knows about the row it is copying into. */
  lemma InstallingRow(s: State, t: nat)
    requires t < |s.threads| && s.threads[t].Installing? && ThreadOk(s, t)
    ensures InstallOk(s, s.threads[t]) && s.rows[s.threads[t].job.ws[s.threads[t].i].row].owner == Held(t, s.threads[t].i)
  {
    hide JobOk, AwaitsOk;
    assert Holds(s, t, s.threads[t].i);
  }

  lemma InstallCellRow(r: Row, r': Row)
    requires RowOk(r) && r.stage.Stored? && r' == r.(data := r'.data) && |r'.data| == |r.data|
    ensures RowOk(r') && Evolves(r, r')
  {
    hide LeaseOk, Fixed;
    SameLease(r, r');
  }

  lemma InstallCellKeeps(s: State, s': State, t: nat, db: Db)
    requires Inv(s, db) && InstallCell(s, s', t)
    ensures Inv(s', db)
  {
    hide OrderOk, PhaseOk, HoldsOk, RowOk, Evolves;
    assert ThreadOk(s, t);
    InstallingRow(s, t);
    var th := s.threads[t];
    var a := th.job.ws[th.i];
    var r, r' := s.rows[a.row], s'.rows[a.row];
    assert RowOk(r) && OwnerOk(s, a.row);
    InstallCellRow(r, r');
    RowsEvolveBut(s, s', a.row);
    InstallCellThread(s, s', t);
    forall y | 0 <= y < |s.rows| && y != a.row && s.rows[y].owner.Held? && s.rows[y].owner.thd == t
      ensures th.i <= s.rows[y].owner.slot
    {
      assert OwnerOk(s, y);
    }
    OwnersStay(s, s', t, a.row, s'.threads[t], r');
    RowMoves(s, s', t, s'.threads[t], a.row, r', db);
  }

  lemma InstallDoneThread(s: State, s': State, t: nat)
    requires InstallDone(s, s', t) && ThreadOk(s, t) && RowsEvolve(s, s')
    ensures ThreadOk(s', t)
  {
    var th := s.threads[t];
    OtherHolds(s, s', t, th.i, s'.threads[t], s'.rows[th.job.ws[th.i].row]);
    JobKeeps(s, s', th.job);
    assert forall i :: th.i < i < |th.job.ws| ==> Awaits(s, th.job.ws[i], th.job.cts);
  }

  lemma InstallDoneRow(r: Row, r': Row, cts: nat)
    requires RowOk(r) && r.stage.Stored? && Last(r.hist) == Version(cts, r.data) && r' == Unlock(r).(stage := Clean)
    ensures RowOk(r') && Evolves(r, r')
  {
    hide LeaseOk, Fixed;
    SameLease(r, r');
  }

  lemma InstallDoneKeeps(s: State, s': State, t: nat, db: Db)
    requires Inv(s, db) && InstallDone(s, s', t)
    ensures Inv(s', db)
  {
    hide OrderOk, PhaseOk, HoldsOk, RowOk, Evolves;
    assert ThreadOk(s, t);
    InstallingRow(s, t);
    var th := s.threads[t];
    var a := th.job.ws[th.i];
    var r, r' := s.rows[a.row], s'.rows[a.row];
    assert RowOk(r) && OwnerOk(s, a.row);
    assert r.data[..th.k] == r.data && a.data[..th.k] == a.data;
    InstallDoneRow(r, r', th.job.cts);
    RowsEvolveBut(s, s', a.row);
    InstallDoneThread(s, s', t);
    forall y | 0 <= y < |s.rows| && y != a.row && s.rows[y].owner.Held? && s.rows[y].owner.thd == t
      ensures th.i + 1 <= s.rows[y].owner.slot
    {
      assert OwnerOk(s, y);
    }
    OwnersStay(s, s', t, a.row, s'.threads[t], r');
    RowMoves(s, s', t, s'.threads[t], a.row, r', db);
  }

  lemma FinishKeeps(s: State, s': State, t: nat, db: Db)
    requires Inv(s, db) && Finish(s, s', t)
    ensures Inv(s', db)
  {
    assert ThreadOk(s, t);
    ThreadMoves(s, s', t, s'.threads[t], db);
  }

  // ---------------------------------------------------------------- whole runs

  lemma InitInv(s: State, db: Db)
    requires Init(s, db)
    ensures Inv(s, db)
  {
    forall x | 0 <= x < |s.rows| ensures RowOk(s.rows[x]) && OwnerOk(s, x) {}
    StartFollows(HistoriesOf(s), db);
  }

  lemma StepKeeps(s: State, s': State, t: nat, db: Db)
    requires Inv(s, db) && Step(s, s', t)
    ensures Inv(s', db)
  {
    if x, w :| BeginRead(s, s', t, x, w) { BeginReadKeeps(s, s', t, x, w, db); }
    else if CopyCell(s, s', t) { CopyCellKeeps(s, s', t, db); }
    else if EndRead(s, s', t) { EndReadKeeps(s, s', t, db); }
    else if k, v :| LocalWrite(s, s', t, k, v) { LocalWriteKeeps(s, s', t, k, v, db); }
    else if Rollback(s, s', t) { RollbackKeeps(s, s', t, db); }
    else if Validate(s, s', t) { ValidateKeeps(s, s', t, db); }
    else if PreAbort(s, s', t) { PreAbortKeeps(s, s', t, db); }
    else if Lock(s, s', t) { LockKeeps(s, s', t, db); }
    else if LockFails(s, s', t) { LockFailsKeeps(s, s', t, db); }
    else if ReleaseOne(s, s', t) { ReleaseOneKeeps(s, s', t, db); }
    else if ReleaseDone(s, s', t) { ReleaseDoneKeeps(s, s', t, db); }
    else if AllLocked(s, s', t) { AllLockedKeeps(s, s', t, db); }
    else if Raise(s, s', t) { RaiseKeeps(s, s', t, db); }
    else if RaiseDone(s, s', t) { RaiseDoneKeeps(s, s', t, db); }
    else if Renew(s, s', t) { RenewKeeps(s, s', t, db); }
    else if SwapWord(s, s', t) { SwapWordKeeps(s, s', t, db); }
    else if SwapFails(s, s', t) { SwapFailsKeeps(s, s', t, db); }
    else if Commit(s, s', t) { CommitKeeps(s, s', t, db); }
    else if StoreWord(s, s', t) { StoreWordKeeps(s, s', t, db); }
    else if InstallCell(s, s', t) { InstallCellKeeps(s, s', t, db); }
    else if InstallDone(s, s', t) { InstallDoneKeeps(s, s', t, db); }
    else { FinishKeeps(s, s', t, db); }
  }

  /** A run: every state but the first comes from the one before it by one step of one thread. */
  ghost predicate Run(run: seq<State>, who: seq<nat>, db: Db) {
    && run != [] && |who| == |run| - 1
    && Init(run[0], db)
    && forall i :: 0 <= i < |who| ==> Step(run[i], run[i + 1], who[i])
  }

  lemma {:induction false} RunInv(run: seq<State>, who: seq<nat>, db: Db)
    requires Run(run, who, db)
    ensures Inv(run[|run| - 1], db)
  {
    if |run| == 1 {
      InitInv(run[0], db);
    } else {
      var n := |run| - 2;
      assert Step(run[n], run[n + 1], who[n]);
      RunInv(run[..n + 1], who[..n], db);
      StepKeeps(run[n], run[n + 1], who[n], db);
    }
  }

  // ---------------------------------------------------------------- what the log reports

  lemma BodiesDistinct(s: State, t: nat, db: Db)
    requires Inv(s, db) && t < |s.threads| && s.threads[t].Running?
    ensures Distinct(s.threads[t].acc)
  {
    hide OrderOk, RowOk;
    assert ThreadOk(s, t);
  }

  lemma StartsBlank(s: State, db: Db)
    requires Init(s, db)
    ensures forall t :: 0 <= t < |s.threads| ==> Accounted(s.threads[t], BLANK)
  {
  }

  /** Over every run, the lists of every thread say what its body has been given and has set, and
      so does the log for the transactions that have committed. */
  lemma {:induction false} RunReports(run: seq<State>, who: seq<nat>, db: Db)
    requires Run(run, who, db)
    ensures Reports(run[|run| - 1].log, Books(DeedsOf(run, who)))
    ensures forall t :: 0 <= t < |run[|run| - 1].threads| ==> Accounted(run[|run| - 1].threads[t], AccountOf(DeedsOf(run, who), t))
  {
    hide Inv, Step, Accounted, DeedOf, Books, AccountOf, IsReport;
    if |run| == 1 {
      StartsBlank(run[0], db);
      NoDeeds();
    } else {
      var n := |run| - 2;
      var s, s', t, deeds := run[n], run[n + 1], who[n], DeedsOf(run[..n + 1], who[..n]);
      assert Step(s, s', t);
      RunReports(run[..n + 1], who[..n], db);
      RunInv(run[..n + 1], who[..n], db);
      StepActs(s, s', t);
      if s.threads[t].Running? { BodiesDistinct(s, t, db); }
      StepReports(s, s', t, AccountOf(deeds, t));
      DeedsGrow(run, who);
      NextDeed(deeds, t, DeedOf(s, s', t));
      NextReports(deeds, t, DeedOf(s, s', t), s.log, s'.log);
    }
  }

  // ---------------------------------------------------------------- serializability

  /** No committed transaction still has rows to install. */
  ghost predicate Quiet(s: State) {
    forall t :: 0 <= t < |s.threads| ==> !s.threads[t].Storing? && !s.threads[t].Installing?
  }

  /** What serializability asks of a run: the log reports all that the bodies of the committed
      transactions have been given and have set, the committed transactions, in the order claimed,
      form a serial history in which every one of them reads exactly that, and the rows hold that
      history's result. */
  ghost predicate SerialOutcome(run: seq<State>, who: seq<nat>, db: Db)
    requires |run| == |who| + 1
  {
    var s := run[|run| - 1];
    && Reports(s.log, Books(DeedsOf(run, who)))
    && multiset(s.order) == multiset(s.log)
    && Sorted(s.order)
    && Replays(db, s.order)
    && (Quiet(s) ==> |s.rows| == |db| && forall x :: 0 <= x < |db| ==> s.rows[x].data == Exec(db, s.order)[x])
  }

  /** Serializability: every run is equivalent to running the committed transactions one after
      the other in the order of their commit timestamps. */
  lemma Serializable(run: seq<State>, who: seq<nat>, db: Db)
    requires Run(run, who, db)
    ensures SerialOutcome(run, who, db)
  {
    RunInv(run, who, db);
    RunReports(run, who, db);
    var s := run[|run| - 1];
    if Quiet(s) {
      assert Agrees(HistoriesOf(s), db, s.order, 0);
      forall x | 0 <= x < |s.rows| ensures s.rows[x].data == Exec(db, s.order)[x] { QuietRow(s, x, db); }
    }
  }

  lemma QuietRow(s: State, x: nat, db: Db)
    requires Inv(s, db) && Quiet(s) && x < |s.rows|
    ensures |s.rows| == |db| && s.rows[x].data == Exec(db, s.order)[x]
  {
    hide Replays, TxnOk, PhaseOk, LeaseOk, Sorted;
    var r := s.rows[x];
    assert RowOk(r) && OwnerOk(s, x);
    if r.owner.Held? {
      assert ThreadOk(s, r.owner.thd);
      assert Holds(s, r.owner.thd, r.owner.slot);
    }
    assert r.stage.Clean?;
    LatestIsResult(HistoriesOf(s), db, s.order, s.log, x);
  }

  /** Every value that the body of a committed transaction has been given is the newest version no
      later than its commit timestamp, or the one right before its own where it writes the row,
      among all versions committed so far and among all versions that can ever be committed: no
      later step of any run changes that. */
  lemma ReadsAreNewest(run: seq<State>, who: seq<nat>, db: Db, n: nat, i: nat, x: nat)
    requires Run(run, who, db) && n < |run|
    requires var books := Books(DeedsOf(run[..n + 1], who[..n])); i < |books| && x in books[i].seen
    ensures var a := Books(DeedsOf(run[..n + 1], who[..n]))[i];
      && i < |run[n].log| && x < |run[|run| - 1].rows| && run[|run| - 1].rows[x].hist != []
      && var ts := run[n].log[i].ts;
      ValueAt(run[|run| - 1].rows[x].hist, if x in a.wrote && ts > 0 then ts - 1 else ts) == a.seen[x]
  {
    hide Books, DeedsOf, Step, ValueAt;
    RunReports(run[..n + 1], who[..n], db);
    NewestFor(run, who, db, n, run[n].log[i], x);
  }

  lemma NewestFor(run: seq<State>, who: seq<nat>, db: Db, n: nat, u: Txn, x: nat)
    requires Run(run, who, db) && n < |run|
    requires u in run[n].log && x in u.seen
    ensures x < |run[|run| - 1].rows| && run[|run| - 1].rows[x].hist != []
    ensures ValueAt(run[|run| - 1].rows[x].hist, ReadPoint(u, x)) == u.seen[x]
  {
    LogGrows(run, who, db, n, |run| - 1, u);
    RunInv(run, who, db);
    var s := run[|run| - 1];
    assert u in multiset(s.order);
    var i :| 0 <= i < |s.order| && s.order[i] == u;
    assert TxnOk(s, s.order[i]);
  }

  /** When a thread commits, all that its body has been given is what the serial history holds at
      its commit timestamp. */
  lemma CommitReadsHistory(run: seq<State>, who: seq<nat>, db: Db, s': State, t: nat)
    requires Run(run, who, db) && Commit(run[|run| - 1], s', t)
    ensures var s, a := run[|run| - 1], AccountOf(DeedsOf(run, who), t);
      && |s'.log| == |s.log| + 1
      && Legal(At(db, s.order, s'.log[|s.log|].ts), Txn(s'.log[|s.log|].ts, a.seen, a.wrote))
  {
    hide Inv, Step, RowOk, PhaseOk, HoldsOk, Reads, Writes, AccountOf, DeedsOf, Insert, Replays, Legal, Agrees;
    RunInv(run, who, db);
    RunReports(run, who, db);
    var s := run[|run| - 1];
    assert Accounted(s.threads[t], AccountOf(DeedsOf(run, who), t));
    CommitIsValid(s, t, db);
    CommitIsLegal(s, t, db);
  }

  lemma CommitIsValid(s: State, t: nat, db: Db)
    requires Inv(s, db) && t < |s.threads| && s.threads[t].Renewing? && s.threads[t].j == |s.threads[t].job.rs|
    ensures Validated(s, t) && Agrees(HistoriesOf(s), db, s.order, s.threads[t].job.cts)
  {
    hide Replays, Sorted, TxnOk, Agrees;
    assert ThreadOk(s, t);
  }

  lemma {:induction false} LogGrows(run: seq<State>, who: seq<nat>, db: Db, n: nat, m: nat, u: Txn)
    requires Run(run, who, db) && n <= m < |run| && u in run[n].log
    ensures u in run[m].log
    decreases m
  {
    if n < m {
      LogGrows(run, who, db, n, m - 1, u);
      assert Step(run[m - 1], run[m], who[m - 1]);
    }
  }
}
