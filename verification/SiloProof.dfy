/** Every run of the Silo protocol is serializable in the order of the lock points. */
module SiloProof {
  import opened Serial
  import opened Versions
  import opened SerialOrder
  import opened AccessList
  import opened Ledger
  import opened Silo
  import opened SiloReports

  // ---------------------------------------------------------------- rows

  /** The version the row's word names. */
  function Inst(r: Row): Version
    requires r.hist != [] && (r.stage.Clean? || |r.hist| > 1)
  {
    if r.stage.Clean? then Last(r.hist) else r.hist[|r.hist| - 2]
  }

  ghost predicate Formed(r: Row) { r.hist != [] && (r.stage.Clean? || |r.hist| > 1) }

  /** With the clock at `c`, no transaction with a lock point at or before `at` can still
      commit a version on this row. */
  ghost predicate Covered(c: nat, r: Row, at: nat) { at < c && (r.claim == 0 || r.claim > at) }

  /** The row's value as of lock point `at` is `v`, for good. */
  ghost predicate Fixed(c: nat, r: Row, at: nat, v: Val)
    requires r.hist != []
  {
    Covered(c, r, at) && ValueAt(r.hist, at) == v
  }

  ghost predicate RowOk(c: nat, r: Row) {
    && Ascending(r.hist)
    && (forall i :: 0 <= i < |r.hist| ==> |r.hist[i].value| == |r.data|)
    && (r.word.locked <==> r.owner.Held?)
    && Last(r.hist).ts < c
    && (r.claim > 0 ==> r.word.locked && r.stage.Clean? && Last(r.hist).ts < r.claim < c)
    && match r.stage
       case Clean => r.data == Last(r.hist).value
       case Pending => |r.hist| > 1 && r.word.locked && r.data == r.hist[|r.hist| - 2].value
       case Writing => |r.hist| > 1 && r.word.locked
  }

  /** What a row may do while a thread that does not hold it looks away. */
  ghost predicate Evolves(c: nat, r: Row, c': nat, r': Row)
    requires Formed(r)
  {
    && Formed(r')
    && |r'.data| == |r.data|
    && r.word.tid <= r'.word.tid
    && (r.word.tid == r'.word.tid ==> Inst(r') == Inst(r))
    && (r.word.tid == r'.word.tid && !r'.stage.Writing? ==> r'.data == r.data && !r.stage.Writing?)
    && (forall at, v :: Fixed(c, r, at, v) ==> Fixed(c', r', at, v))
    && Last(r.hist).ts <= Last(r'.hist).ts
  }

  // ---------------------------------------------------------------- threads

  /** An access whose tid is still current read the installed version, and that version is
      older than the lock point `point`. */
  ghost predicate AccessOk(s: State, a: Access<nat>, point: nat) {
    && a.row < |s.rows|
    && var r := s.rows[a.row];
    && Formed(r)
    && |a.orig| == |a.data| == |r.data|
    && a.ver <= r.word.tid
    && (a.ver == r.word.tid ==> Inst(r).value == a.orig && Inst(r).ts < point)
  }

  ghost predicate AccessesOk(s: State, acc: seq<Access<nat>>, point: nat) {
    forall i :: 0 <= i < |acc| ==> AccessOk(s, acc[i], point)
  }

  ghost predicate JobOk(s: State, job: Job, point: nat) {
    && AccessesOk(s, job.ws, point) && AccessesOk(s, job.rs, point)
    && Distinct(job.ws) && Distinct(job.rs) && Apart(job.ws, job.rs)
  }

  ghost predicate CopyOk(s: State, th: Thread)
    requires th.Copying?
  {
    && th.row < |s.rows|
    && var r, v := s.rows[th.row], th.seenWord;
    && Formed(r)
    && !v.locked && v.tid <= r.word.tid
    && |th.buf| <= |r.data|
    && (v.tid == r.word.tid && !r.stage.Writing? ==> th.buf == r.data[..|th.buf|])
    && (forall i :: 0 <= i < |th.acc| ==> th.acc[i].row != th.row)
  }

  function Ws(th: Thread): seq<Access<nat>> {
    if th.Running? || th.Copying? then [] else th.job.ws
  }

  /** The positions `Lo .. Hi` of its write set that a thread holds locked. */
  function Lo(th: Thread): nat {
    match th
    case Releasing(_, k, _, _) => k
    case Installing(_, i, _, _) => i
    case Unlocking(_, i, _) => i
    case _ => 0
  }

  function Hi(th: Thread): nat {
    match th
    case Running(_) => 0
    case Copying(_, _, _, _, _) => 0
    case Locking(_, n) => n
    case Releasing(_, _, n, _) => n
    case _ => |th.job.ws|
  }

  /** The lock point announced on the rows the thread holds: 0 before it has one. */
  function Claim(th: Thread): nat {
    if th.CheckingReads? || th.CheckingWrites? then th.job.point else 0
  }

  ghost predicate Holds(s: State, t: nat, i: nat)
    requires t < |s.threads| && i < |Ws(s.threads[t])| && Ws(s.threads[t])[i].row < |s.rows|
  {
    s.rows[Ws(s.threads[t])[i].row].owner == Held(t, i)
  }

  /** Which phases hold rows on which they have committed nothing. */
  ghost predicate Uncommitted(th: Thread) {
    th.Locking? || th.Releasing? || th.CheckingReads? || th.CheckingWrites?
  }

  ghost predicate HoldsOk(s: State, t: nat)
    requires t < |s.threads|
  {
    var th := s.threads[t];
    && Lo(th) <= Hi(th) <= |Ws(th)|
    && forall i :: Lo(th) <= i < Hi(th) ==>
         && Ws(th)[i].row < |s.rows| && Holds(s, t, i)
         && (Uncommitted(th) ==> s.rows[Ws(th)[i].row].stage.Clean?)
         && (th.Releasing? || s.rows[Ws(th)[i].row].claim == Claim(th))
  }

  /** The version locked is the one the transaction read. */
  ghost predicate Current(s: State, a: Access<nat>)
    requires a.row < |s.rows|
  {
    s.rows[a.row].word.tid == a.ver && s.rows[a.row].stage.Clean?
  }

  ghost predicate CurrentOk(s: State, job: Job, m: nat)
    requires m <= |job.ws|
  {
    forall i :: 0 <= i < m ==> job.ws[i].row < |s.rows| && Current(s, job.ws[i])
  }

  ghost predicate CheckedOk(s: State, job: Job, m: nat)
    requires m <= |job.rs|
  {
    forall j :: 0 <= j < m ==>
      && job.rs[j].row < |s.rows| && s.rows[job.rs[j].row].hist != []
      && Fixed(s.clock, s.rows[job.rs[j].row], job.point, job.rs[j].orig)
  }

  ghost predicate TidsMet(job: Job, m: nat)
    requires m <= |job.ws|
  {
    forall i :: 0 <= i < m ==> job.ws[i].ver <= job.maxTid
  }

  /** A committed version not stored yet, under a tid below the chosen one. */
  ghost predicate Awaits(s: State, a: Access<nat>, point: nat, tid: nat)
    requires a.row < |s.rows|
  {
    var r := s.rows[a.row];
    r.stage.Pending? && r.hist != [] && Last(r.hist) == Version(point, a.data) && r.word.tid < tid
  }

  ghost predicate AwaitsOk(s: State, job: Job, lo: nat, tid: nat) {
    forall i :: lo <= i < |job.ws| ==> job.ws[i].row < |s.rows| && Awaits(s, job.ws[i], job.point, tid)
  }

  ghost predicate InstallOk(s: State, th: Thread)
    requires th.Installing? && th.i < |th.job.ws|
  {
    var a := th.job.ws[th.i];
    && a.row < |s.rows|
    && var r := s.rows[a.row];
    && !r.stage.Clean? && r.hist != [] && Last(r.hist) == Version(th.job.point, a.data) && r.word.tid < th.tid
    && th.k <= |r.data| == |a.data|
    && r.data[..th.k] == a.data[..th.k]
  }

  ghost predicate Stamped(s: State, job: Job) {
    0 < job.point < s.clock && JobOk(s, job, job.point)
  }

  ghost predicate PhaseOk(s: State, th: Thread) {
    match th
    case Running(acc) => AccessesOk(s, acc, s.clock) && Distinct(acc)
    case Copying(acc, _, _, _, _) => AccessesOk(s, acc, s.clock) && Distinct(acc) && CopyOk(s, th)
    case Locking(job, n) => JobOk(s, job, s.clock) && n <= |job.ws| && CurrentOk(s, job, n)
    case Releasing(job, k, n, _) => JobOk(s, job, s.clock) && k <= n <= |job.ws|
    case CheckingReads(job, j) =>
      Stamped(s, job) && j <= |job.rs| && CurrentOk(s, job, |job.ws|) && CheckedOk(s, job, j)
    case CheckingWrites(job, j) =>
      && Stamped(s, job) && j <= |job.ws| && CurrentOk(s, job, |job.ws|)
      && CheckedOk(s, job, |job.rs|) && TidsMet(job, j)
    case Installing(job, i, k, tid) =>
      && Stamped(s, job) && i <= |job.ws| && AwaitsOk(s, job, i + 1, tid)
      && (i < |job.ws| ==> InstallOk(s, th))
    case Unlocking(job, i, tid) =>
      && Stamped(s, job) && i < |job.ws| && AwaitsOk(s, job, i + 1, tid)
      && job.ws[i].row < |s.rows| && s.rows[job.ws[i].row].stage.Clean?
  }

  ghost predicate ThreadOk(s: State, t: nat)
    requires t < |s.threads|
  {
    HoldsOk(s, t) && PhaseOk(s, s.threads[t])
  }

  /** A lock bit is held by exactly the position of exactly the thread it names. */
  ghost predicate OwnerOk(s: State, x: nat)
    requires x < |s.rows|
  {
    var o := s.rows[x].owner;
    o.Held? ==>
      && o.thd < |s.threads|
      && Lo(s.threads[o.thd]) <= o.slot < Hi(s.threads[o.thd]) <= |Ws(s.threads[o.thd])|
      && Ws(s.threads[o.thd])[o.slot].row == x
  }

  // ---------------------------------------------------------------- the serial order

  /** The transaction saw a row as of its timestamp, or right before it when it overwrites it. */
  ghost function ReadPoint(u: Txn, x: nat): nat {
    if x in u.written && u.ts > 0 then u.ts - 1 else u.ts
  }

  /** A committed transaction read what stays the value as of its lock point. */
  ghost predicate TxnOk(s: State, u: Txn) {
    && (forall x :: x in u.seen ==>
          x < |s.rows| && s.rows[x].hist != [] && Fixed(s.clock, s.rows[x], ReadPoint(u, x), u.seen[x]))
    && (forall x :: x in u.written ==>
          x < |s.rows| && s.rows[x].hist != [] && Last(s.rows[x].hist).ts >= u.ts)
  }

  /** The version histories of the rows. */
  ghost function HistoriesOf(s: State): Histories {
    seq(|s.rows|, x requires 0 <= x < |s.rows| => s.rows[x].hist)
  }

  ghost predicate OrderOk(s: State, db: Db) {
    && Follows(HistoriesOf(s), db, s.order, s.log)
    && (forall i :: 0 <= i < |s.order| ==> TxnOk(s, s.order[i]))
  }

  ghost predicate RowsOk(s: State) {
    forall x :: 0 <= x < |s.rows| ==> RowOk(s.clock, s.rows[x])
  }

  ghost predicate Inv(s: State, db: Db) {
    && |s.curTid| == |s.threads| && s.clock > 0
    && RowsOk(s)
    && (forall x :: 0 <= x < |s.rows| ==> OwnerOk(s, x))
    && (forall t :: 0 <= t < |s.threads| ==> ThreadOk(s, t))
    && OrderOk(s, db)
  }

  // ---------------------------------------------------------------- framing

  ghost predicate RowsEvolve(s: State, s': State) {
    && |s'.rows| == |s.rows| && s.clock <= s'.clock
    && forall x :: 0 <= x < |s.rows| ==> Formed(s.rows[x]) && Evolves(s.clock, s.rows[x], s'.clock, s'.rows[x])
  }

  /** Only thread `t` moves, and rows held by other threads stay as they are. */
  ghost predicate OnlyMoves(s: State, s': State, t: nat) {
    && |s'.threads| == |s.threads|
    && (forall u :: 0 <= u < |s.threads| && u != t ==> s'.threads[u] == s.threads[u])
    && |s'.rows| == |s.rows|
    && (forall x :: 0 <= x < |s.rows| && s.rows[x].owner.Held? && s.rows[x].owner.thd != t ==> s'.rows[x] == s.rows[x])
  }

  lemma AccessKeeps(s: State, s': State, a: Access<nat>, point: nat, point': nat)
    requires RowsEvolve(s, s') && AccessOk(s, a, point) && point <= point'
    ensures AccessOk(s', a, point')
  {
    assert Evolves(s.clock, s.rows[a.row], s'.clock, s'.rows[a.row]);
  }

  lemma AccessesKeep(s: State, s': State, acc: seq<Access<nat>>, point: nat, point': nat)
    requires RowsEvolve(s, s') && AccessesOk(s, acc, point) && point <= point'
    ensures AccessesOk(s', acc, point')
  {
    forall i | 0 <= i < |acc| ensures AccessOk(s', acc[i], point') { AccessKeeps(s, s', acc[i], point, point'); }
  }

  lemma JobKeeps(s: State, s': State, job: Job, point: nat, point': nat)
    requires RowsEvolve(s, s') && JobOk(s, job, point) && point <= point'
    ensures JobOk(s', job, point')
  {
    AccessesKeep(s, s', job.ws, point, point');
    AccessesKeep(s, s', job.rs, point, point');
  }

  lemma CopyKeeps(s: State, s': State, th: Thread)
    requires RowsEvolve(s, s') && th.Copying? && CopyOk(s, th)
    ensures CopyOk(s', th)
  {
    assert Evolves(s.clock, s.rows[th.row], s'.clock, s'.rows[th.row]);
  }

  lemma CheckedKeeps(s: State, s': State, job: Job, m: nat)
    requires RowsEvolve(s, s') && m <= |job.rs| && CheckedOk(s, job, m)
    ensures CheckedOk(s', job, m)
  {
    forall j | 0 <= j < m
      ensures s'.rows[job.rs[j].row].hist != []
      ensures Fixed(s'.clock, s'.rows[job.rs[j].row], job.point, job.rs[j].orig)
    {
      assert Evolves(s.clock, s.rows[job.rs[j].row], s'.clock, s'.rows[job.rs[j].row]);
    }
  }

  /** A thread that does not move keeps its invariant. */
  lemma OthersKeep(s: State, s': State, t: nat, u: nat)
    requires u < |s.threads| && u != t && ThreadOk(s, u)
    requires RowsEvolve(s, s') && OnlyMoves(s, s', t)
    ensures ThreadOk(s', u)
  {
    hide AccessesOk, CopyOk, CheckedOk, JobOk, RowOk, AccessOk, Ascending;
    var th := s.threads[u];
    assert forall i :: Lo(th) <= i < Hi(th) ==> Holds(s, u, i) && s'.rows[Ws(th)[i].row] == s.rows[Ws(th)[i].row];
    assert HoldsOk(s', u);
    match th {
      case Running(acc) => AccessesKeep(s, s', acc, s.clock, s'.clock);
      case Copying(acc, _, _, _, _) => AccessesKeep(s, s', acc, s.clock, s'.clock); CopyKeeps(s, s', th);
      case Locking(job, n) => JobKeeps(s, s', job, s.clock, s'.clock);
      case Releasing(job, k, n, _) => JobKeeps(s, s', job, s.clock, s'.clock);
      case CheckingReads(job, j) => JobKeeps(s, s', job, job.point, job.point); CheckedKeeps(s, s', job, j);
      case CheckingWrites(job, j) => JobKeeps(s, s', job, job.point, job.point); CheckedKeeps(s, s', job, |job.rs|);
      case Installing(job, i, k, _) => JobKeeps(s, s', job, job.point, job.point);
      case Unlocking(job, i, _) => JobKeeps(s, s', job, job.point, job.point);
    }
  }

  lemma TxnKeeps(s: State, s': State, u: Txn)
    requires TxnOk(s, u) && RowsEvolve(s, s')
    ensures TxnOk(s', u)
  {
    forall x | x in u.seen
      ensures s'.rows[x].hist != [] && Fixed(s'.clock, s'.rows[x], ReadPoint(u, x), u.seen[x])
    {
      assert Evolves(s.clock, s.rows[x], s'.clock, s'.rows[x]);
    }
    forall x | x in u.written ensures s'.rows[x].hist != [] && Last(s'.rows[x].hist).ts >= u.ts {
      assert Evolves(s.clock, s.rows[x], s'.clock, s'.rows[x]);
    }
  }

  /** The serial order stays right as long as no version is committed. */
  lemma OrderKeeps(s: State, s': State, db: Db)
    requires OrderOk(s, db) && RowsEvolve(s, s')
    requires s'.order == s.order && s'.log == s.log
    requires forall x :: 0 <= x < |s.rows| ==> s'.rows[x].hist == s.rows[x].hist
    ensures OrderOk(s', db)
  {
    assert HistoriesOf(s') == HistoriesOf(s);
    forall i | 0 <= i < |s.order| ensures TxnOk(s', s'.order[i]) {
      TxnKeeps(s, s', s.order[i]);
    }
  }

  lemma Frame(s: State, s': State, t: nat, db: Db)
    requires Inv(s, db) && t < |s.threads|
    requires OnlyMoves(s, s', t) && RowsEvolve(s, s')
    requires s'.order == s.order && s'.log == s.log && s'.curTid == s.curTid
    requires forall x :: 0 <= x < |s.rows| ==> s'.rows[x].hist == s.rows[x].hist
    requires ThreadOk(s', t)
    requires RowsOk(s')
    requires forall x :: 0 <= x < |s.rows| ==> OwnerOk(s', x)
    ensures Inv(s', db)
  {
    forall u | 0 <= u < |s'.threads| ensures ThreadOk(s', u) {
      if u != t { OthersKeep(s, s', t, u); }
    }
    OrderKeeps(s, s', db);
  }

  /** A step that touches no row and keeps the locks of its thread. */
  lemma ThreadMoves(s: State, s': State, t: nat, th: Thread, db: Db)
    requires Inv(s, db) && t < |s.threads| && s' == SetThread(s, t, th)
    requires (Lo(th) == Lo(s.threads[t]) && Hi(th) == Hi(s.threads[t]))
           || (Lo(th) == Hi(th) && Lo(s.threads[t]) == Hi(s.threads[t]))
    requires Hi(th) <= |Ws(th)|
    requires Lo(th) < Hi(th) ==> Ws(th) == Ws(s.threads[t])
    requires Lo(th) < Hi(th) ==> Uncommitted(th) == Uncommitted(s.threads[t])
    requires Lo(th) < Hi(th) ==> th.Releasing? || (!s.threads[t].Releasing? && Claim(th) == Claim(s.threads[t]))
    requires PhaseOk(s, th)
    ensures Inv(s', db)
  {
    hide PhaseOk, JobOk, AccessesOk, OrderOk;
    assert ThreadOk(s, t);
    SameRowsEvolve(s, s');
    forall x | 0 <= x < |s.rows| ensures OwnerOk(s', x) { assert OwnerOk(s, x); }
    assert HoldsOk(s', t);
    PhaseSameRows(s, s', th);
    Frame(s, s', t, db);
  }

  lemma SameRowsEvolve(s: State, s': State)
    requires RowsOk(s) && s'.rows == s.rows && s'.clock == s.clock
    ensures RowsEvolve(s, s') && RowsOk(s')
  {
    forall x | 0 <= x < |s.rows| ensures Formed(s.rows[x]) && RowOk(s'.clock, s'.rows[x]) {
      assert RowOk(s.clock, s.rows[x]);
    }
  }

  lemma AccessSameRows(s: State, s': State)
    requires s'.rows == s.rows && s'.clock == s.clock
    ensures forall a, p :: AccessOk(s, a, p) == AccessOk(s', a, p)
  {
  }

  lemma JobSameRows(s: State, s': State, job: Job)
    requires s'.rows == s.rows && s'.clock == s.clock
    ensures forall p :: JobOk(s, job, p) ==> JobOk(s', job, p)
  {
    hide AccessOk;
    AccessSameRows(s, s');
  }

  lemma PhaseSameRows(s: State, s': State, th: Thread)
    requires s'.rows == s.rows && s'.clock == s.clock && PhaseOk(s, th)
    ensures PhaseOk(s', th)
  {
    hide AccessOk, JobOk, Distinct;
    if th.Running? || th.Copying? { AccessSameRows(s, s'); } else { JobSameRows(s, s', th.job); }
  }

  /** A step that changes one row which no other thread holds. */
  lemma RowMoves(s: State, s': State, t: nat, th: Thread, x: nat, r: Row, db: Db)
    requires Inv(s, db) && t < |s.threads| && x < |s.rows| && s' == SetBoth(s, t, th, x, r)
    requires s.rows[x].owner.Held? ==> s.rows[x].owner.thd == t
    requires RowOk(s.clock, r) && r.hist == s.rows[x].hist && RowsEvolve(s, s')
    requires ThreadOk(s', t)
    requires OwnerOk(s', x)
    requires forall y :: 0 <= y < |s.rows| && y != x && s.rows[y].owner.Held? && s.rows[y].owner.thd == t ==> OwnerOk(s', y)
    ensures Inv(s', db)
  {
    forall y | 0 <= y < |s.rows| ensures RowOk(s'.clock, s'.rows[y]) && OwnerOk(s', y) {
      assert RowOk(s.clock, s.rows[y]) && OwnerOk(s, y);
    }
    Frame(s, s', t, db);
  }

  lemma RowsEvolveBut(s: State, s': State, x: nat)
    requires x < |s.rows| == |s'.rows| && s'.clock == s.clock
    requires RowsOk(s)
    requires forall y :: 0 <= y < |s.rows| && y != x ==> s'.rows[y] == s.rows[y]
    requires Formed(s.rows[x]) && Evolves(s.clock, s.rows[x], s'.clock, s'.rows[x])
    ensures RowsEvolve(s, s')
  {
    forall y | 0 <= y < |s.rows|
      ensures Formed(s.rows[y]) && Evolves(s.clock, s.rows[y], s'.clock, s'.rows[y])
    {
      assert RowOk(s.clock, s.rows[y]);
    }
  }

  /** Writing one held row leaves the other held rows alone. */
  lemma OtherHolds(s: State, s': State, t: nat, i: nat, th: Thread, r: Row)
    requires t < |s.threads| && HoldsOk(s, t) && Distinct(Ws(s.threads[t]))
    requires Lo(s.threads[t]) <= i < Hi(s.threads[t])
    requires s' == SetBoth(s, t, th, Ws(s.threads[t])[i].row, r)
    ensures forall m :: Lo(s.threads[t]) <= m < Hi(s.threads[t]) && m != i ==>
              Ws(s.threads[t])[m].row < |s.rows|
              && s'.rows[Ws(s.threads[t])[m].row] == s.rows[Ws(s.threads[t])[m].row]
              && s.rows[Ws(s.threads[t])[m].row].owner == Held(t, m)
  {
    assert Holds(s, t, i);
    forall m | Lo(s.threads[t]) <= m < Hi(s.threads[t]) && m != i
      ensures Ws(s.threads[t])[m].row != Ws(s.threads[t])[i].row && Holds(s, t, m)
    {
      if m < i { assert Ws(s.threads[t])[m].row != Ws(s.threads[t])[i].row; }
    }
  }

  /** Rows owned by `t` are still owned after it wrote one of them. */
  lemma OwnersStay(s: State, s': State, t: nat, x: nat, th: Thread, r: Row)
    requires t < |s.threads| && x < |s.rows| && s' == SetBoth(s, t, th, x, r)
    requires forall y :: 0 <= y < |s.rows| ==> OwnerOk(s, y)
    requires Ws(th) == Ws(s.threads[t]) && Hi(th) == Hi(s.threads[t])
    requires forall y :: 0 <= y < |s.rows| && y != x && s.rows[y].owner.Held? && s.rows[y].owner.thd == t ==>
               Lo(th) <= s.rows[y].owner.slot
    ensures forall y :: 0 <= y < |s.rows| && y != x && s.rows[y].owner.Held? && s.rows[y].owner.thd == t ==> OwnerOk(s', y)
  {
    forall y | 0 <= y < |s.rows| && y != x && s.rows[y].owner.Held? && s.rows[y].owner.thd == t ensures OwnerOk(s', y) {
      assert OwnerOk(s, y);
    }
  }

  // ---------------------------------------------------------------- executing

  lemma BeginReadKeeps(s: State, s': State, t: nat, x: nat, write: bool, db: Db)
    requires Inv(s, db) && BeginRead(s, s', t, x, write)
    ensures Inv(s', db)
  {
    assert ThreadOk(s, t) && RowOk(s.clock, s.rows[x]);
    ThreadMoves(s, s', t, s'.threads[t], db);
  }

  lemma CopyCellKeeps(s: State, s': State, t: nat, db: Db)
    requires Inv(s, db) && CopyCell(s, s', t)
    ensures Inv(s', db)
  {
    assert ThreadOk(s, t);
    var th := s.threads[t];
    var data := s.rows[th.row].data;
    assert data[..|th.buf|] + [data[|th.buf|]] == data[..|th.buf| + 1];
    ThreadMoves(s, s', t, s'.threads[t], db);
  }

  /** The accepted copy is the one version named by the tid. */
  lemma AcceptedCopy(s: State, t: nat, db: Db)
    requires Inv(s, db) && t < |s.threads| && s.threads[t].Copying?
    requires s.threads[t].row < |s.rows| && |s.threads[t].buf| == |s.rows[s.threads[t].row].data|
    requires s.rows[s.threads[t].row].word == s.threads[t].seenWord
    ensures var th := s.threads[t];
      AccessOk(s, Access(th.write, th.row, th.seenWord.tid, th.buf, th.buf), s.clock)
    ensures var th := s.threads[t];
      th.buf == Last(s.rows[th.row].hist).value
  {
    assert ThreadOk(s, t);
    var th := s.threads[t];
    var r := s.rows[th.row];
    assert RowOk(s.clock, r);
    assert r.data[..|th.buf|] == r.data;
  }

  lemma EndReadKeeps(s: State, s': State, t: nat, db: Db)
    requires Inv(s, db) && EndRead(s, s', t)
    ensures Inv(s', db)
  {
    assert ThreadOk(s, t);
    var th := s.threads[t];
    if s.rows[th.row].word == th.seenWord { AcceptedCopy(s, t, db); }
    ThreadMoves(s, s', t, s'.threads[t], db);
  }

  lemma LocalWriteKeeps(s: State, s': State, t: nat, k: nat, v: Val, db: Db)
    requires Inv(s, db) && LocalWrite(s, s', t, k, v)
    ensures Inv(s', db)
  {
    assert ThreadOk(s, t);
    ThreadMoves(s, s', t, s'.threads[t], db);
  }

  lemma ValidateKeeps(s: State, s': State, t: nat, db: Db)
    requires Inv(s, db) && Validate(s, s', t)
    ensures Inv(s', db)
  {
    assert ThreadOk(s, t);
    var acc := s.threads[t].acc;
    var job := Job(Filter(acc, true), Filter(acc, false), 0, 0);
    FilterDistinct(acc, true);
    FilterDistinct(acc, false);
    FilterApart(acc);
    forall i | 0 <= i < |job.ws| ensures AccessOk(s, job.ws[i], s.clock) { var k := FilterFrom(acc, true, i); }
    forall i | 0 <= i < |job.rs| ensures AccessOk(s, job.rs[i], s.clock) { var k := FilterFrom(acc, false, i); }
    ThreadMoves(s, s', t, s'.threads[t], db);
  }

  /** The steps that only look, or only drop what the thread had. */
  lemma QuietKeeps(s: State, s': State, t: nat, db: Db)
    requires Inv(s, db)
    requires Rollback(s, s', t) || PreAbort(s, s', t) || LockFails(s, s', t) || ReleaseDone(s, s', t) || Finish(s, s', t)
    ensures Inv(s', db)
  {
    assert ThreadOk(s, t);
    ThreadMoves(s, s', t, s'.threads[t], db);
  }

  // ---------------------------------------------------------------- locking

  /** The rows locked so far are still held and current. */
  lemma LockedStay(s: State, s': State, t: nat)
    requires Lock(s, s', t) && HoldsOk(s, t) && CurrentOk(s, s.threads[t].job, s.threads[t].n)
    requires RowOk(s.clock, s.rows[s.threads[t].job.ws[s.threads[t].n].row])
    ensures forall i :: 0 <= i < s.threads[t].n ==>
              && s.threads[t].job.ws[i].row < |s.rows|
              && s'.rows[s.threads[t].job.ws[i].row] == s.rows[s.threads[t].job.ws[i].row]
              && Holds(s, t, i) && Current(s, s.threads[t].job.ws[i])
  {
    var th := s.threads[t];
    assert forall i :: 0 <= i < th.n ==> Holds(s, t, i);
  }

  lemma LockHolds(s: State, s': State, t: nat)
    requires Lock(s, s', t) && HoldsOk(s, t) && CurrentOk(s, s.threads[t].job, s.threads[t].n)
    requires RowOk(s.clock, s.rows[s.threads[t].job.ws[s.threads[t].n].row])
    ensures HoldsOk(s', t)
    ensures s'.threads[t].Locking? ==> CurrentOk(s', s.threads[t].job, s.threads[t].n + 1)
    ensures |s'.rows| == |s.rows| && s'.clock == s.clock
  {
    hide RowOk, Ascending;
    LockedStay(s, s', t);
    FreeRow(s, t);
  }

  /** A row that is not locked belongs to nobody. */
  lemma FreeRow(s: State, t: nat)
    requires t < |s.threads| && s.threads[t].Locking? && s.threads[t].n < |s.threads[t].job.ws|
    requires s.threads[t].job.ws[s.threads[t].n].row < |s.rows|
    requires var r := s.rows[s.threads[t].job.ws[s.threads[t].n].row]; RowOk(s.clock, r) && !r.word.locked
    ensures s.rows[s.threads[t].job.ws[s.threads[t].n].row].stage.Clean?
    ensures s.rows[s.threads[t].job.ws[s.threads[t].n].row].claim == 0
  {
  }

  lemma LockThread(s: State, s': State, t: nat)
    requires Lock(s, s', t) && ThreadOk(s, t) && RowsOk(s) && RowsEvolve(s, s')
    ensures ThreadOk(s', t)
  {
    hide AccessesOk, Ascending, JobOk, RowsEvolve, Evolves, AccessOk, Formed, HoldsOk, CurrentOk, RowOk;
    var th := s.threads[t];
    assert RowOk(s.clock, s.rows[th.job.ws[th.n].row]);
    JobKeeps(s, s', th.job, s.clock, s'.clock);
    LockHolds(s, s', t);
  }

  lemma LockKeeps(s: State, s': State, t: nat, db: Db)
    requires Inv(s, db) && Lock(s, s', t)
    ensures Inv(s', db)
  {
    hide OrderOk, PhaseOk, JobOk;
    assert ThreadOk(s, t);
    var th := s.threads[t];
    var a := th.job.ws[th.n];
    var r, r' := s.rows[a.row], s'.rows[a.row];
    assert RowOk(s.clock, r) && OwnerOk(s, a.row);
    assert RowOk(s.clock, r') && Evolves(s.clock, r, s.clock, r');
    RowsEvolveBut(s, s', a.row);
    LockThread(s, s', t);
    forall y | 0 <= y < |s.rows| && y != a.row && s.rows[y].owner.Held? && s.rows[y].owner.thd == t ensures OwnerOk(s', y) {
      assert OwnerOk(s, y);
    }
    RowMoves(s, s', t, s'.threads[t], a.row, r', db);
  }

  lemma UnlockRow(c: nat, r: Row)
    requires RowOk(c, r) && r.stage.Clean?
    ensures RowOk(c, Unlock(r)) && Evolves(c, r, c, Unlock(r))
  {
  }

  lemma ReleaseOneThread(s: State, s': State, t: nat)
    requires ReleaseOne(s, s', t) && ThreadOk(s, t) && RowsEvolve(s, s')
    ensures ThreadOk(s', t)
  {
    var th := s.threads[t];
    OtherHolds(s, s', t, th.k, s'.threads[t], s'.rows[th.job.ws[th.k].row]);
    JobKeeps(s, s', th.job, s.clock, s'.clock);
  }

  lemma ReleaseOneKeeps(s: State, s': State, t: nat, db: Db)
    requires Inv(s, db) && ReleaseOne(s, s', t)
    ensures Inv(s', db)
  {
    hide OrderOk, RowOk, Evolves, AwaitsOk, Ascending;
    assert ThreadOk(s, t);
    var th := s.threads[t];
    var x := th.job.ws[th.k].row;
    assert Holds(s, t, th.k) && RowOk(s.clock, s.rows[x]);
    UnlockRow(s.clock, s.rows[x]);
    RowsEvolveBut(s, s', x);
    ReleaseOneThread(s, s', t);
    forall y | 0 <= y < |s.rows| && y != x && s.rows[y].owner.Held? && s.rows[y].owner.thd == t
      ensures th.k + 1 <= s.rows[y].owner.slot
    {
      assert OwnerOk(s, y);
    }
    OwnersStay(s, s', t, x, s'.threads[t], s'.rows[x]);
    RowMoves(s, s', t, s'.threads[t], x, s'.rows[x], db);
  }

  // ---------------------------------------------------------------- the lock point

  lemma LockedRow(s: State, t: nat, x: nat)
    requires t < |s.threads| && s.threads[t].Locking? && s.threads[t].n == |s.threads[t].job.ws|
    requires ThreadOk(s, t) && x in Writes(s.threads[t].job.ws)
    ensures x < |s.rows| && s.rows[x].owner.Held? && s.rows[x].owner.thd == t && s.rows[x].stage.Clean?
  {
    var i := WriteSlot(s.threads[t].job.ws, x);
    assert Holds(s, t, i);
  }

  lemma AllLockedRow(s: State, s': State, t: nat, x: nat)
    requires AllLocked(s, s', t) && ThreadOk(s, t) && x < |s.rows| && RowOk(s.clock, s.rows[x])
    ensures RowOk(s'.clock, s'.rows[x]) && Formed(s.rows[x]) && Evolves(s.clock, s.rows[x], s'.clock, s'.rows[x])
    ensures s'.rows[x].hist == s.rows[x].hist && s'.rows[x].owner == s.rows[x].owner
    ensures s.rows[x].owner.Held? && s.rows[x].owner.thd != t ==> s'.rows[x] == s.rows[x]
  {
    if x in Writes(s.threads[t].job.ws) { LockedRow(s, t, x); }
  }

  lemma AllLockedThread(s: State, s': State, t: nat)
    requires AllLocked(s, s', t) && ThreadOk(s, t) && RowsEvolve(s, s') && s.clock > 0
    ensures ThreadOk(s', t)
  {
    var job := s.threads[t].job;
    JobKeeps(s, s', job, s.clock, s.clock);
    forall i | 0 <= i < |job.ws|
      ensures s'.rows[job.ws[i].row].owner == Held(t, i) && s'.rows[job.ws[i].row].claim == s.clock
      ensures Current(s', job.ws[i])
    {
      assert Holds(s, t, i) && Current(s, job.ws[i]);
      WritesHas(job.ws, i);
    }
    assert JobOk(s', s'.threads[t].job, s.clock);
  }

  lemma AllLockedKeeps(s: State, s': State, t: nat, db: Db)
    requires Inv(s, db) && AllLocked(s, s', t)
    ensures Inv(s', db)
  {
    assert ThreadOk(s, t);
    forall x | 0 <= x < |s.rows|
      ensures RowOk(s'.clock, s'.rows[x]) && Formed(s.rows[x]) && Evolves(s.clock, s.rows[x], s'.clock, s'.rows[x])
      ensures s'.rows[x].hist == s.rows[x].hist && s'.rows[x].owner == s.rows[x].owner
      ensures s.rows[x].owner.Held? && s.rows[x].owner.thd != t ==> s'.rows[x] == s.rows[x]
    {
      assert RowOk(s.clock, s.rows[x]);
      AllLockedRow(s, s', t, x);
    }
    AllLockedThread(s, s', t);
    forall x | 0 <= x < |s.rows| ensures OwnerOk(s', x) { assert OwnerOk(s, x); }
    Frame(s, s', t, db);
  }

  // ---------------------------------------------------------------- validating

  /** A row found unlocked and unchanged holds the value read, as of the lock point. */
  lemma CheckedRow(s: State, a: Access<nat>, point: nat)
    requires AccessOk(s, a, point) && point < s.clock && RowOk(s.clock, s.rows[a.row])
    requires !s.rows[a.row].word.locked && s.rows[a.row].word.tid == a.ver
    ensures Fixed(s.clock, s.rows[a.row], point, a.orig)
  {
    AtLast(s.rows[a.row].hist, point);
  }

  lemma CheckReadKeeps(s: State, s': State, t: nat, db: Db)
    requires Inv(s, db) && CheckRead(s, s', t)
    ensures Inv(s', db)
  {
    assert ThreadOk(s, t);
    var th := s.threads[t];
    var a := th.job.rs[th.j];
    assert AccessOk(s, a, th.job.point) && RowOk(s.clock, s.rows[a.row]);
    if s'.threads[t].CheckingReads? {
      CheckedRow(s, a, th.job.point);
      CheckedMore(s, th.job, th.j, s'.threads[t].job);
    } else {
      JobWeaken(s, th.job);
    }
    ThreadMoves(s, s', t, s'.threads[t], db);
  }

  lemma CheckedMore(s: State, job: Job, j: nat, job': Job)
    requires Stamped(s, job) && j < |job.rs| && CheckedOk(s, job, j) && CurrentOk(s, job, |job.ws|)
    requires job' == job.(maxTid := job'.maxTid)
    requires AccessOk(s, job.rs[j], job.point) && Fixed(s.clock, s.rows[job.rs[j].row], job.point, job.rs[j].orig)
    ensures Stamped(s, job') && CheckedOk(s, job', j + 1) && CurrentOk(s, job', |job'.ws|)
  {
  }

  lemma JobWeaken(s: State, job: Job)
    requires Stamped(s, job)
    ensures JobOk(s, job, s.clock)
  {
    assert forall a :: AccessOk(s, a, job.point) ==> AccessOk(s, a, s.clock);
  }

  lemma ReadsCheckedKeeps(s: State, s': State, t: nat, db: Db)
    requires Inv(s, db) && ReadsChecked(s, s', t)
    ensures Inv(s', db)
  {
    assert ThreadOk(s, t);
    ThreadMoves(s, s', t, s'.threads[t], db);
  }

  lemma CheckWriteKeeps(s: State, s': State, t: nat, db: Db)
    requires Inv(s, db) && CheckWrite(s, s', t)
    ensures Inv(s', db)
  {
    assert ThreadOk(s, t);
    var th := s.threads[t];
    assert Current(s, th.job.ws[th.j]);
    assert Stamped(s, s'.threads[t].job);
    assert CheckedOk(s, s'.threads[t].job, |th.job.rs|);
    ThreadMoves(s, s', t, s'.threads[t], db);
  }

  // ---------------------------------------------------------------- committing

  /** Validation is over: every read is checked and every write lock is in hand. */
  ghost predicate Validated(s: State, t: nat) {
    && t < |s.threads| && s.threads[t].CheckingWrites? && s.threads[t].j == |s.threads[t].job.ws|
    && ThreadOk(s, t) && RowsOk(s)
  }

  /** What a validated transaction knows about a row of its write set; the tid it is about to
      choose exceeds the tid it overwrites. */
  lemma WriteRow(s: State, t: nat, i: nat)
    requires Validated(s, t) && i < |s.threads[t].job.ws|
    ensures var a, job := s.threads[t].job.ws[i], s.threads[t].job;
      && a.row < |s.rows|
      && var r := s.rows[a.row];
      && RowOk(s.clock, r) && r.owner == Held(t, i) && r.word.locked && r.stage.Clean? && r.claim == job.point
      && |a.data| == |r.data| && Last(r.hist).ts < job.point && ValueAt(r.hist, job.point) == a.orig
      && forall cur: nat :: r.word.tid <= job.maxTid < NextTid(job.maxTid, cur) && cur < NextTid(job.maxTid, cur)
  {
    var a, job := s.threads[t].job.ws[i], s.threads[t].job;
    assert Holds(s, t, i) && AccessOk(s, a, job.point) && Current(s, a) && RowOk(s.clock, s.rows[a.row]);
    AtLast(s.rows[a.row].hist, job.point);
  }

  lemma CommittedRow(c: nat, r: Row, r': Row, v: Val)
    requires RowOk(c, r) && r.claim > 0 && |v| == |r.data|
    requires r' == r.(hist := r.hist + [Version(r.claim, v)], stage := Pending, claim := 0)
    ensures RowOk(c, r') && Evolves(c, r, c, r')
  {
    forall at: nat ensures ValueAt(r'.hist, at) == if at < r.claim then ValueAt(r.hist, at) else v {
      Append(r.hist, Version(r.claim, v), at);
    }
    forall at: nat, w | Fixed(c, r, at, w) ensures Fixed(c, r', at, w) {}
  }

  lemma CommitRow(s: State, s': State, t: nat, x: nat)
    requires Commit(s, s', t) && Validated(s, t) && x < |s.rows|
    ensures RowOk(s'.clock, s'.rows[x]) && Formed(s.rows[x]) && Evolves(s.clock, s.rows[x], s'.clock, s'.rows[x])
    ensures s.rows[x].owner.Held? && s.rows[x].owner.thd != t ==> s'.rows[x] == s.rows[x]
    ensures s'.rows[x].owner == s.rows[x].owner
  {
    assert RowOk(s.clock, s.rows[x]);
    var job := s.threads[t].job;
    if x in Writes(job.ws) {
      var i := WriteSlot(job.ws, x);
      WriteRow(s, t, i);
      CommittedRow(s.clock, s.rows[x], s'.rows[x], job.ws[i].data);
    }
  }

  lemma CommitRows(s: State, s': State, t: nat)
    requires Commit(s, s', t) && Validated(s, t)
    ensures RowsEvolve(s, s') && OnlyMoves(s, s', t) && RowsOk(s')
  {
    forall x | 0 <= x < |s.rows|
      ensures RowOk(s'.clock, s'.rows[x]) && Formed(s.rows[x]) && Evolves(s.clock, s.rows[x], s'.clock, s'.rows[x])
      ensures s.rows[x].owner.Held? && s.rows[x].owner.thd != t ==> s'.rows[x] == s.rows[x]
    {
      CommitRow(s, s', t, x);
    }
  }

  lemma CommitSlot(s: State, s': State, t: nat, i: nat)
    requires Commit(s, s', t) && Validated(s, t) && i < |s.threads[t].job.ws|
    ensures s.threads[t].job.ws[i].row < |s'.rows|
    ensures Awaits(s', s.threads[t].job.ws[i], s.threads[t].job.point, s'.threads[t].tid)
    ensures s'.rows[s.threads[t].job.ws[i].row].owner == Held(t, i)
    ensures s'.rows[s.threads[t].job.ws[i].row].claim == 0
    ensures |s'.rows[s.threads[t].job.ws[i].row].data| == |s.threads[t].job.ws[i].data|
  {
    WriteRow(s, t, i);
    WrittenIs(s.threads[t].job.ws, i);
  }

  lemma CommitThread(s: State, s': State, t: nat)
    requires Commit(s, s', t) && Validated(s, t) && RowsEvolve(s, s')
    ensures ThreadOk(s', t)
  {
    hide JobOk, RowOk, Ascending, TxnOf, Insert;
    var job := s.threads[t].job;
    JobKeeps(s, s', job, job.point, job.point);
    var tid := s'.threads[t].tid;
    forall i | 0 <= i < |job.ws|
      ensures job.ws[i].row < |s'.rows| && Awaits(s', job.ws[i], job.point, tid)
      ensures s'.rows[job.ws[i].row].owner == Held(t, i) && s'.rows[job.ws[i].row].claim == 0
      ensures |s'.rows[job.ws[i].row].data| == |job.ws[i].data|
    {
      CommitSlot(s, s', t, i);
    }
    assert AwaitsOk(s', job, 1, tid);
    assert HoldsOk(s', t);
    assert PhaseOk(s', Installing(job, 0, 0, tid));
  }

  /** The value a validated access returned is the row's value as of the lock point. */
  lemma SeenIs(s: State, t: nat, x: nat)
    requires Validated(s, t) && x in TxnOf(s.threads[t].job).seen
    ensures x < |s.rows| && RowOk(s.clock, s.rows[x])
    ensures ValueAt(s.rows[x].hist, s.threads[t].job.point) == TxnOf(s.threads[t].job).seen[x]
    ensures x !in TxnOf(s.threads[t].job).written ==>
              Fixed(s.clock, s.rows[x], s.threads[t].job.point, TxnOf(s.threads[t].job).seen[x])
  {
    var job := s.threads[t].job;
    var i := ReadSlot(job.ws + job.rs, x);
    if i < |job.ws| {
      WriteRow(s, t, i);
      WritesHas(job.ws, i);
    } else {
      var a := job.rs[i - |job.ws|];
      assert AccessOk(s, a, job.point);
      assert Fixed(s.clock, s.rows[x], job.point, a.orig);
    }
  }

  /** The transaction read the database as of its lock point. */
  lemma CommitIsLegal(s: State, t: nat, db: Db)
    requires Validated(s, t) && Agrees(HistoriesOf(s), db, s.order, s.threads[t].job.point)
    ensures Legal(At(db, s.order, s.threads[t].job.point), TxnOf(s.threads[t].job))
  {
    var txn := TxnOf(s.threads[t].job);
    forall x | x in txn.seen ensures x < |db| && txn.seen[x] == At(db, s.order, txn.ts)[x] {
      SeenIs(s, t, x);
    }
  }

  /** Nothing committed with a later lock point has looked at the rows being written. */
  lemma CommitIsUntouched(s: State, t: nat, u: Txn)
    requires Validated(s, t) && TxnOk(s, u) && u.ts > s.threads[t].job.point
    ensures Untouched(TxnOf(s.threads[t].job), u)
  {
    var job := s.threads[t].job;
    forall x | x in TxnOf(job).written ensures x !in u.seen && x !in u.written {
      var i := WriteSlot(job.ws, x);
      WriteRow(s, t, i);
    }
  }

  /** What the committed transaction saw is fixed: right before its own version where it has
      written one. */
  lemma NewSeen(s: State, s': State, t: nat, x: nat)
    requires Commit(s, s', t) && Validated(s, t) && RowsEvolve(s, s') && x in TxnOf(s.threads[t].job).seen
    ensures var txn := TxnOf(s.threads[t].job);
            x < |s.rows| && s'.rows[x].hist != [] && Fixed(s'.clock, s'.rows[x], ReadPoint(txn, x), txn.seen[x])
  {
    hide Insert, Reads, RowOk, JobOk, PhaseOk, HoldsOk;
    var job := s.threads[t].job;
    SeenIs(s, t, x);
    if x in TxnOf(job).written {
      var i := WriteSlot(job.ws, x);
      WriteRow(s, t, i);
      AtLast(s.rows[x].hist, job.point);
      AtLast(s.rows[x].hist, job.point - 1);
      Append(s.rows[x].hist, Version(job.point, TxnOf(job).written[x]), job.point - 1);
    } else {
      assert Evolves(s.clock, s.rows[x], s'.clock, s'.rows[x]);
    }
  }

  lemma NewTxnOk(s: State, s': State, t: nat)
    requires Commit(s, s', t) && Validated(s, t) && RowsEvolve(s, s')
    ensures TxnOk(s', TxnOf(s.threads[t].job))
  {
    hide Fixed, ReadPoint, RowsEvolve, Insert, Reads;
    var job := s.threads[t].job;
    var txn := TxnOf(job);
    forall x | x in txn.seen
      ensures x < |s.rows| && s'.rows[x].hist != [] && Fixed(s'.clock, s'.rows[x], ReadPoint(txn, x), txn.seen[x])
    {
      NewSeen(s, s', t, x);
    }
    forall x | x in txn.written ensures x < |s.rows| && s'.rows[x].hist != [] && Last(s'.rows[x].hist).ts >= txn.ts {
      var i := WriteSlot(job.ws, x);
      WriteRow(s, t, i);
    }
  }

  lemma CommitTxns(s: State, s': State, t: nat)
    requires Commit(s, s', t) && Validated(s, t) && RowsEvolve(s, s')
    requires forall i :: 0 <= i < |s.order| ==> TxnOk(s, s.order[i])
    ensures forall i :: 0 <= i < |s'.order| ==> TxnOk(s', s'.order[i])
  {
    hide TxnOk, PhaseOk, HoldsOk, RowOk, TxnOf, Insert;
    var txn := TxnOf(s.threads[t].job);
    NewTxnOk(s, s', t);
    InsertMembers(s.order, txn);
    forall i | 0 <= i < |s'.order| ensures TxnOk(s', s'.order[i]) {
      if s'.order[i] != txn {
        var j :| 0 <= j < |s.order| && s.order[j] == s'.order[i];
        TxnKeeps(s, s', s.order[j]);
      }
    }
  }

  lemma CommitAppends(s: State, s': State, t: nat)
    requires Commit(s, s', t)
    ensures Appends(HistoriesOf(s), HistoriesOf(s'), TxnOf(s.threads[t].job))
  {
    hide Reads, Writes, Insert;
  }

  lemma CommitOrders(s: State, s': State, t: nat, db: Db)
    requires Commit(s, s', t) && Validated(s, t) && OrderOk(s, db) && RowsEvolve(s, s')
    ensures OrderOk(s', db)
  {
    hide TxnOk, Agrees, Replays, Legal, Untouched, Reads, Writes, Appends, Insert, RowsEvolve;
    var txn := TxnOf(s.threads[t].job);
    assert txn.ts == s.threads[t].job.point && Agrees(HistoriesOf(s), db, s.order, txn.ts);
    CommitIsLegal(s, t, db);
    forall i | 0 <= i < |s.order| && s.order[i].ts > txn.ts ensures Untouched(txn, s.order[i]) {
      CommitIsUntouched(s, t, s.order[i]);
    }
    CommitAppends(s, s', t);
    CommitFollows(HistoriesOf(s), HistoriesOf(s'), db, s.order, s.log, txn);
    CommitTxns(s, s', t);
  }

  lemma CommitOwners(s: State, s': State, t: nat)
    requires Commit(s, s', t) && Validated(s, t)
    requires forall x :: 0 <= x < |s.rows| ==> OwnerOk(s, x)
    ensures forall x :: 0 <= x < |s'.rows| ==> OwnerOk(s', x)
  {
    hide RowOk, PhaseOk, HoldsOk;
    forall x | 0 <= x < |s.rows| ensures OwnerOk(s', x) {
      assert OwnerOk(s, x);
      CommitRow(s, s', t, x);
    }
  }

  lemma CommitKeeps(s: State, s': State, t: nat, db: Db)
    requires Inv(s, db) && Commit(s, s', t)
    ensures Inv(s', db)
  {
    assert ThreadOk(s, t);
    assert Validated(s, t);
    CommitRows(s, s', t);
    CommitThread(s, s', t);
    CommitOrders(s, s', t, db);
    forall u | 0 <= u < |s'.threads| ensures ThreadOk(s', u) {
      if u != t { OthersKeep(s, s', t, u); }
    }
    CommitOwners(s, s', t);
  }

  // ---------------------------------------------------------------- installing

  lemma InstallCellThread(s: State, s': State, t: nat)
    requires InstallCell(s, s', t) && ThreadOk(s, t) && RowsEvolve(s, s')
    ensures ThreadOk(s', t)
  {
    var th := s.threads[t];
    var a := th.job.ws[th.i];
    var r, r' := s.rows[a.row], s'.rows[a.row];
    assert r'.data[..th.k + 1] == a.data[..th.k] + [a.data[th.k]];
    assert a.data[..th.k + 1] == a.data[..th.k] + [a.data[th.k]];
    assert Holds(s, t, th.i);
    OtherHolds(s, s', t, th.i, s'.threads[t], r');
    JobKeeps(s, s', th.job, th.job.point, th.job.point);
    assert forall i :: th.i < i < |th.job.ws| ==> Awaits(s, th.job.ws[i], th.job.point, th.tid);
  }

  /** What an installing thread knows about the row it is copying into. */
  lemma InstallingRow(s: State, t: nat)
    requires t < |s.threads| && s.threads[t].Installing? && s.threads[t].i < |s.threads[t].job.ws| && ThreadOk(s, t)
    ensures InstallOk(s, s.threads[t]) && s.rows[s.threads[t].job.ws[s.threads[t].i].row].owner == Held(t, s.threads[t].i)
  {
    hide JobOk, AwaitsOk;
    assert Holds(s, t, s.threads[t].i);
  }

  lemma InstallCellRow(c: nat, r: Row, r': Row)
    requires RowOk(c, r) && !r.stage.Clean? && r' == r.(data := r'.data, stage := Writing) && |r'.data| == |r.data|
    ensures RowOk(c, r') && Formed(r) && Evolves(c, r, c, r')
  {
  }

  lemma InstallCellKeeps(s: State, s': State, t: nat, db: Db)
    requires Inv(s, db) && InstallCell(s, s', t)
    ensures Inv(s', db)
  {
    hide OrderOk, PhaseOk, HoldsOk, RowOk, Evolves;
    assert ThreadOk(s, t);
    InstallingRow(s, t);
    var th := s.threads[t];
    var a := th.job.ws[th.i];
    var r, r' := s.rows[a.row], s'.rows[a.row];
    assert RowOk(s.clock, r) && OwnerOk(s, a.row);
    InstallCellRow(s.clock, r, r');
    RowsEvolveBut(s, s', a.row);
    InstallCellThread(s, s', t);
    forall y | 0 <= y < |s.rows| && y != a.row && s.rows[y].owner.Held? && s.rows[y].owner.thd == t
      ensures th.i <= s.rows[y].owner.slot
    {
      assert OwnerOk(s, y);
    }
    OwnersStay(s, s', t, a.row, s'.threads[t], r');
    RowMoves(s, s', t, s'.threads[t], a.row, r', db);
  }

  lemma StoreTidThread(s: State, s': State, t: nat)
    requires StoreTid(s, s', t) && ThreadOk(s, t) && RowsEvolve(s, s')
    ensures ThreadOk(s', t)
  {
    var th := s.threads[t];
    var a := th.job.ws[th.i];
    assert Holds(s, t, th.i);
    OtherHolds(s, s', t, th.i, s'.threads[t], s'.rows[a.row]);
    JobKeeps(s, s', th.job, th.job.point, th.job.point);
    assert forall i :: th.i < i < |th.job.ws| ==> Awaits(s, th.job.ws[i], th.job.point, th.tid);
  }

  lemma StoreTidKeeps(s: State, s': State, t: nat, db: Db)
    requires Inv(s, db) && StoreTid(s, s', t)
    ensures Inv(s', db)
  {
    hide OrderOk, AccessOk, JobOk, Ascending;
    assert ThreadOk(s, t);
    var th := s.threads[t];
    var a := th.job.ws[th.i];
    var r, r' := s.rows[a.row], s'.rows[a.row];
    assert Holds(s, t, th.i) && RowOk(s.clock, r) && OwnerOk(s, a.row);
    assert r.data[..th.k] == r.data && a.data[..th.k] == a.data;
    assert RowOk(s.clock, r') && Evolves(s.clock, r, s.clock, r');
    RowsEvolveBut(s, s', a.row);
    StoreTidThread(s, s', t);
    forall y | 0 <= y < |s.rows| && y != a.row && s.rows[y].owner.Held? && s.rows[y].owner.thd == t
      ensures th.i <= s.rows[y].owner.slot
    {
      assert OwnerOk(s, y);
    }
    OwnersStay(s, s', t, a.row, s'.threads[t], r');
    RowMoves(s, s', t, s'.threads[t], a.row, r', db);
  }

  lemma UnlockWrittenHolds(s: State, s': State, t: nat)
    requires UnlockWritten(s, s', t) && ThreadOk(s, t)
    ensures HoldsOk(s', t)
    ensures var th := s.threads[t]; AwaitsOk(s', th.job, th.i + 1, th.tid)
    ensures |s'.rows| == |s.rows| && s'.clock == s.clock
  {
    hide Ascending, OrderOk, RowOk, Evolves, AccessesOk;
    var th := s.threads[t];
    OtherHolds(s, s', t, th.i, s'.threads[t], s'.rows[th.job.ws[th.i].row]);
    assert forall i :: th.i < i < |th.job.ws| ==> Awaits(s, th.job.ws[i], th.job.point, th.tid);
  }

  lemma UnlockWrittenThread(s: State, s': State, t: nat)
    requires UnlockWritten(s, s', t) && ThreadOk(s, t) && RowsEvolve(s, s')
    ensures ThreadOk(s', t)
  {
    hide Ascending, OrderOk, RowOk, Evolves, HoldsOk, RowsEvolve;
    var th := s.threads[t];
    var job := th.job;
    UnlockWrittenHolds(s, s', t);
    JobKeeps(s, s', job, job.point, job.point);
    if th.i + 1 < |job.ws| {
      assert Awaits(s', job.ws[th.i + 1], job.point, th.tid) && AccessOk(s', job.ws[th.i + 1], job.point);
    }
  }

  lemma UnlockWrittenKeeps(s: State, s': State, t: nat, db: Db)
    requires Inv(s, db) && UnlockWritten(s, s', t)
    ensures Inv(s', db)
  {
    hide OrderOk;
    assert ThreadOk(s, t);
    var th := s.threads[t];
    var x := th.job.ws[th.i].row;
    assert Holds(s, t, th.i) && RowOk(s.clock, s.rows[x]);
    UnlockRow(s.clock, s.rows[x]);
    RowsEvolveBut(s, s', x);
    UnlockWrittenThread(s, s', t);
    forall y | 0 <= y < |s.rows| && y != x && s.rows[y].owner.Held? && s.rows[y].owner.thd == t
      ensures th.i + 1 <= s.rows[y].owner.slot
    {
      assert OwnerOk(s, y);
    }
    OwnersStay(s, s', t, x, s'.threads[t], s'.rows[x]);
    RowMoves(s, s', t, s'.threads[t], x, s'.rows[x], db);
  }

  // ---------------------------------------------------------------- whole runs

  lemma InitInv(s: State, db: Db)
    requires Init(s, db)
    ensures Inv(s, db)
  {
    StartFollows(HistoriesOf(s), db);
  }

  lemma StepKeeps(s: State, s': State, t: nat, db: Db)
    requires Inv(s, db) && Step(s, s', t)
    ensures Inv(s', db)
  {
    if x, w :| BeginRead(s, s', t, x, w) { BeginReadKeeps(s, s', t, x, w, db); }
    else if CopyCell(s, s', t) { CopyCellKeeps(s, s', t, db); }
    else if EndRead(s, s', t) { EndReadKeeps(s, s', t, db); }
    else if k, v :| LocalWrite(s, s', t, k, v) { LocalWriteKeeps(s, s', t, k, v, db); }
    else if Validate(s, s', t) { ValidateKeeps(s, s', t, db); }
    else if Lock(s, s', t) { LockKeeps(s, s', t, db); }
    else if ReleaseOne(s, s', t) { ReleaseOneKeeps(s, s', t, db); }
    else if AllLocked(s, s', t) { AllLockedKeeps(s, s', t, db); }
    else if CheckRead(s, s', t) { CheckReadKeeps(s, s', t, db); }
    else if ReadsChecked(s, s', t) { ReadsCheckedKeeps(s, s', t, db); }
    else if CheckWrite(s, s', t) { CheckWriteKeeps(s, s', t, db); }
    else if Commit(s, s', t) { CommitKeeps(s, s', t, db); }
    else if InstallCell(s, s', t) { InstallCellKeeps(s, s', t, db); }
    else if StoreTid(s, s', t) { StoreTidKeeps(s, s', t, db); }
    else if UnlockWritten(s, s', t) { UnlockWrittenKeeps(s, s', t, db); }
    else { QuietKeeps(s, s', t, db); }
  }

  /** A run: every state but the first comes from the one before it by one step of one thread. */
  ghost predicate Run(run: seq<State>, who: seq<nat>, db: Db) {
    && run != [] && |who| == |run| - 1
    && Init(run[0], db)
    && forall i :: 0 <= i < |who| ==> Step(run[i], run[i + 1], who[i])
  }

  lemma {:induction false} RunInv(run: seq<State>, who: seq<nat>, db: Db)
    requires Run(run, who, db)
    ensures Inv(run[|run| - 1], db)
  {
    if |run| == 1 {
      InitInv(run[0], db);
    } else {
      var n := |run| - 2;
      assert Step(run[n], run[n + 1], who[n]);
      RunInv(run[..n + 1], who[..n], db);
      StepKeeps(run[n], run[n + 1], who[n], db);
    }
  }

  // ---------------------------------------------------------------- what the log reports

  lemma BodiesDistinct(s: State, t: nat, db: Db)
    requires Inv(s, db) && t < |s.threads| && s.threads[t].Running?
    ensures Distinct(s.threads[t].acc)
  {
    hide OrderOk, RowOk;
    assert ThreadOk(s, t);
  }

  lemma StartsBlank(s: State, db: Db)
    requires Init(s, db)
    ensures forall t :: 0 <= t < |s.threads| ==> Accounted(s.threads[t], BLANK)
  {
  }

  /** Over every run, the lists of every thread say what its body has been given and has set, and
      so does the log for the transactions that have committed. */
  lemma {:induction false} RunReports(run: seq<State>, who: seq<nat>, db: Db)
    requires Run(run, who, db)
    ensures Reports(run[|run| - 1].log, Books(DeedsOf(run, who)))
    ensures forall t :: 0 <= t < |run[|run| - 1].threads| ==> Accounted(run[|run| - 1].threads[t], AccountOf(DeedsOf(run, who), t))
  {
    hide Inv, Step, Accounted, DeedOf, Books, AccountOf, IsReport;
    if |run| == 1 {
      StartsBlank(run[0], db);
      NoDeeds();
    } else {
      var n := |run| - 2;
      var s, s', t, deeds := run[n], run[n + 1], who[n], DeedsOf(run[..n + 1], who[..n]);
      assert Step(s, s', t);
      RunReports(run[..n + 1], who[..n], db);
      RunInv(run[..n + 1], who[..n], db);
      StepActs(s, s', t);
      if s.threads[t].Running? { BodiesDistinct(s, t, db); }
      StepReports(s, s', t, AccountOf(deeds, t));
      DeedsGrow(run, who);
      NextDeed(deeds, t, DeedOf(s, s', t));
      NextReports(deeds, t, DeedOf(s, s', t), s.log, s'.log);
    }
  }

  // ---------------------------------------------------------------- serializability

  /** No committed transaction still has rows to install. */
  ghost predicate Quiet(s: State) {
    forall t :: 0 <= t < |s.threads| ==> !s.threads[t].Installing? && !s.threads[t].Unlocking?
  }

  /** What serializability asks of a run: the log reports all that the bodies of the committed
      transactions have been given and have set, the committed transactions, in the order claimed,
      form a serial history in which every one of them reads exactly that, and the rows hold that
      history's result. */
  ghost predicate SerialOutcome(run: seq<State>, who: seq<nat>, db: Db)
    requires |run| == |who| + 1
  {
    var s := run[|run| - 1];
    && Reports(s.log, Books(DeedsOf(run, who)))
    && multiset(s.order) == multiset(s.log)
    && Sorted(s.order)
    && Replays(db, s.order)
    && (Quiet(s) ==> |s.rows| == |db| && forall x :: 0 <= x < |db| ==> s.rows[x].data == Exec(db, s.order)[x])
  }

  /** Serializability: every run is equivalent to running the committed transactions one after
      the other in the order in which each held its last write lock. */
  lemma Serializable(run: seq<State>, who: seq<nat>, db: Db)
    requires Run(run, who, db)
    ensures SerialOutcome(run, who, db)
  {
    var s := run[|run| - 1];
    RunInv(run, who, db);
    RunReports(run, who, db);
    assert Agrees(HistoriesOf(s), db, s.order, 0);
    forall x | Quiet(s) && 0 <= x < |s.rows| ensures s.rows[x].data == Exec(db, s.order)[x] { QuietRow(s, x, db); }
  }

  lemma QuietRow(s: State, x: nat, db: Db)
    requires Inv(s, db) && Quiet(s) && x < |s.rows|
    ensures |s.rows| == |db| && s.rows[x].data == Exec(db, s.order)[x]
  {
    hide Replays, TxnOk, PhaseOk, Sorted;
    var r := s.rows[x];
    assert RowOk(s.clock, r) && OwnerOk(s, x);
    if r.owner.Held? {
      assert ThreadOk(s, r.owner.thd);
      assert Holds(s, r.owner.thd, r.owner.slot);
    }
    assert r.stage.Clean?;
    LatestIsResult(HistoriesOf(s), db, s.order, s.log, x);
  }

  /** When a thread commits, all that its body has been given is what the serial history holds at
      its lock point. */
  lemma CommitReadsHistory(run: seq<State>, who: seq<nat>, db: Db, s': State, t: nat)
    requires Run(run, who, db) && Commit(run[|run| - 1], s', t)
    ensures var s, a := run[|run| - 1], AccountOf(DeedsOf(run, who), t);
      && |s'.log| == |s.log| + 1
      && Legal(At(db, s.order, s'.log[|s.log|].ts), Txn(s'.log[|s.log|].ts, a.seen, a.wrote))
  {
    hide Inv, Step, RowOk, PhaseOk, HoldsOk, Reads, Writes, AccountOf, DeedsOf, Insert, Replays, Legal, Agrees, Validated;
    RunInv(run, who, db);
    RunReports(run, who, db);
    var s := run[|run| - 1];
    assert Accounted(s.threads[t], AccountOf(DeedsOf(run, who), t));
    CommitIsValid(s, t, db);
    CommitIsLegal(s, t, db);
  }

  lemma CommitIsValid(s: State, t: nat, db: Db)
    requires Inv(s, db) && t < |s.threads| && s.threads[t].CheckingWrites? && s.threads[t].j == |s.threads[t].job.ws|
    ensures Validated(s, t) && Agrees(HistoriesOf(s), db, s.order, s.threads[t].job.point)
  {
    hide Replays, Sorted, TxnOk, Agrees;
    assert ThreadOk(s, t);
  }
}
