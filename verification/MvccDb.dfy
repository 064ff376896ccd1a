/** Multi-version timestamp ordering over a whole database: transactions send requests to the
    rows, wait for answers, look through the buffers they are handed, and at the end return their
    rows one by one. */
module MvccDb {
  import opened Serial
  import opened Versions
  import opened MvccHistory
  import M = Mvcc

  /** One access: the buffer that was handed out, and what the transaction body has seen in it
      so far.  A write's buffer is `clean` until the body changes it. */
  datatype Access = Access(row: nat, write: bool, buf: nat, clean: bool, looks: seq<Val>)

  function Granted(x: nat, write: bool, buf: nat): Access { Access(x, write, buf, true, []) }

  datatype Thread =
    | Idle
    | Running(ts: nat, acc: seq<Access>)
    | Waiting(ts: nat, acc: seq<Access>, row: nat, write: bool)
    | Ending(ts: nat, acc: seq<Access>, commit: bool)

  /** `dealt` are the timestamps handed out so far, `order` the serial order claimed, `log` the
      order of commits and `looked` the accesses of the committed transactions. */
  datatype State = State(
    rows: seq<M.Row>, threads: seq<Thread>, dealt: set<nat>,
    order: seq<Txn>, log: seq<Txn>, looked: seq<seq<Access>>)

  predicate Touches(acc: seq<Access>, x: nat) {
    exists k :: 0 <= k < |acc| && acc[k].row == x
  }

  predicate Overwrites(acc: seq<Access>, x: nat) {
    exists k :: 0 <= k < |acc| && acc[k].row == x && acc[k].write
  }

  predicate Looked(acc: seq<Access>, x: nat) {
    exists k :: 0 <= k < |acc| && acc[k].row == x && acc[k].looks != []
  }

  /** What the first look at the row showed. */
  function Got(acc: seq<Access>, x: nat): (v: Val)
    requires Looked(acc, x)
    ensures exists k :: 0 <= k < |acc| && acc[k].row == x && acc[k].looks != [] && acc[k].looks[0] == v
  {
    var a := acc[|acc| - 1];
    if a.row == x && a.looks != [] then a.looks[0] else Got(acc[..|acc| - 1], x)
  }

  function Contents(r: M.Row, buf: nat): Val {
    if buf < |r.mem| then r.mem[buf] else []
  }

  /** What the pending write of the row has in its buffer. */
  function Buffer(r: M.Row): Val {
    if r.preId < |r.slots| && r.slots[r.preId].row.At? then Contents(r, r.slots[r.preId].row.addr) else []
  }

  function TxnOf(rows: seq<M.Row>, ts: nat, acc: seq<Access>): Txn {
    Txn(ts,
        map x: nat | x < |rows| && Looked(acc, x) :: Got(acc, x),
        map x: nat | x < |rows| && Overwrites(acc, x) :: Buffer(rows[x]))
  }

  function SetThread(s: State, t: nat, th: Thread): State
    requires t < |s.threads|
  {
    s.(threads := s.threads[t := th])
  }

  function SetBoth(s: State, t: nat, th: Thread, x: nat, r: M.Row): State
    requires t < |s.threads| && x < |s.rows|
  {
    s.(threads := s.threads[t := th], rows := s.rows[x := r])
  }

  /** A transaction gets a timestamp of its own. */
  ghost predicate Begin(s: State, s': State, t: nat, ts: nat) {
    && t < |s.threads| && s.threads[t].Idle?
    && 0 < ts < M.UINT64_MAX && ts !in s.dealt
    && s' == s.(threads := s.threads[t := Running(ts, [])], dealt := s.dealt + {ts})
  }

  /** What a request and its answer make of the thread. */
  function After(ts: nat, acc: seq<Access>, x: nat, write: bool, code: M.Code, buf: nat): Thread {
    match code
    case Ok => Running(ts, acc + [Granted(x, write, buf)])
    case Wait => Waiting(ts, acc, x, write)
    case Abort => Ending(ts, acc, false)
  }

  /** get_row for a read. */
  ghost predicate Read(s: State, s': State, t: nat, x: nat) {
    && t < |s.threads| && x < |s.rows|
    && var th, r := s.threads[t], s.rows[x];
    && th.Running? && !Touches(th.acc, x) && th.ts > 0 && r.reqs != [] && r.all != []
    && var (r', code, cur) := M.Read(r, th.ts, t);
    && s' == SetBoth(s, t, After(th.ts, th.acc, x, false, code, cur), x, r')
  }

  /** get_row for a write. */
  ghost predicate Prewrite(s: State, s': State, t: nat, x: nat, minTs: nat) {
    && t < |s.threads| && x < |s.rows|
    && var th, r := s.threads[t], s.rows[x];
    && th.Running? && !Touches(th.acc, x) && r.reqs != []
    && var (r', code, buf) := M.Prewrite(r, th.ts, t, minTs);
    && s' == SetBoth(s, t, After(th.ts, th.acc, x, true, code, buf), x, r')
  }

  /** The transaction body looks at a row through the buffer it was handed, as that buffer is
      now.  What it sees of its own writes is not recorded. */
  ghost predicate Look(s: State, s': State, t: nat, k: nat) {
    && t < |s.threads|
    && var th := s.threads[t];
    && th.Running? && k < |th.acc| && th.acc[k].clean && th.acc[k].row < |s.rows|
    && var a := th.acc[k];
    && s' == SetThread(s, t, Running(th.ts, th.acc[k := a.(looks := a.looks + [Contents(s.rows[a.row], a.buf)])]))
  }

  /** The transaction body changes the buffer of a row it writes. */
  ghost predicate Fill(s: State, s': State, t: nat, k: nat, v: Val) {
    && t < |s.threads|
    && var th := s.threads[t];
    && th.Running? && k < |th.acc| && th.acc[k].write && th.acc[k].row < |s.rows|
    && var x := th.acc[k].row;
    && M.HasBuffer(s.rows[x])
    && s' == SetBoth(s, t, Running(th.ts, th.acc[k := th.acc[k].(clean := false)]), x, M.Fill(s.rows[x], v))
  }

  ghost predicate Rollback(s: State, s': State, t: nat) {
    && t < |s.threads| && s.threads[t].Running?
    && s' == SetThread(s, t, Ending(s.threads[t].ts, s.threads[t].acc, false))
  }

  /** finish with success: the transaction is committed, its rows are returned from here on. */
  ghost predicate Commit(s: State, s': State, t: nat) {
    && t < |s.threads|
    && var th := s.threads[t];
    && th.Running?
    && var txn := TxnOf(s.rows, th.ts, th.acc);
    && s' == State(s.rows, s.threads[t := Ending(th.ts, th.acc, true)], s.dealt,
                   Insert(s.order, txn), s.log + [txn], s.looked + [th.acc])
  }

  /** cleanup: a row that was only read needs nothing. */
  ghost predicate ReturnRead(s: State, s': State, t: nat) {
    && t < |s.threads|
    && var th := s.threads[t];
    && th.Ending? && th.acc != [] && !th.acc[|th.acc| - 1].write
    && s' == SetThread(s, t, Ending(th.ts, th.acc[..|th.acc| - 1], th.commit))
  }

  /** A waiting transaction is handed its row. */
  function Answered(th: Thread, buf: nat): Thread {
    if th.Waiting? then Running(th.ts, th.acc + [Granted(th.row, th.write, buf)]) else th
  }

  ghost predicate Resumes(th: Thread, th': Thread, u: nat, ws: seq<M.Wakeup>) {
    if exists i :: 0 <= i < |ws| && ws[i].req.txn == u
    then exists i :: 0 <= i < |ws| && ws[i].req.txn == u && th' == Answered(th, ws[i].row)
    else th' == th
  }

  /** cleanup: a written row is committed or dropped, and its row wakes whom it can. */
  ghost predicate ReturnWrite(s: State, s': State, t: nat, minTs: nat) {
    && t < |s.threads|
    && var th := s.threads[t];
    && th.Ending? && th.acc != []
    && var a := th.acc[|th.acc| - 1];
    && a.write && a.row < |s.rows|
    && var r := s.rows[a.row];
    && M.HasBuffer(r)
    && var (d, ws) := M.Update(if th.commit then M.Install(r) else M.Drop(r), r.preTs, minTs);
    && s' == s.(rows := s.rows[a.row := d], threads := s'.threads)
    && |s'.threads| == |s.threads|
    && s'.threads[t] == Ending(th.ts, th.acc[..|th.acc| - 1], th.commit)
    && forall u :: 0 <= u < |s.threads| && u != t ==> Resumes(s.threads[u], s'.threads[u], u, ws)
  }

  ghost predicate Finish(s: State, s': State, t: nat) {
    && t < |s.threads| && s.threads[t].Ending? && s.threads[t].acc == []
    && s' == SetThread(s, t, Idle)
  }

  ghost predicate Step(s: State, s': State, t: nat) {
    || (exists ts :: Begin(s, s', t, ts))
    || (exists x :: Read(s, s', t, x))
    || (exists x, minTs :: Prewrite(s, s', t, x, minTs))
    || (exists k :: Look(s, s', t, k))
    || (exists k, v :: Fill(s, s', t, k, v))
    || Rollback(s, s', t) || Commit(s, s', t) || ReturnRead(s, s', t)
    || (exists minTs :: ReturnWrite(s, s', t, minTs))
    || Finish(s, s', t)
  }

  /** What the step must not run into for its transaction to see what it should: the lookup of
      an old version is not misled, and a read looks at its buffer only while the row still
      remembers the version it was given. */
  ghost predicate Careful(s: State, s': State, t: nat) {
    t < |s.threads| && s.threads[t].Running? ==>
      var th := s.threads[t];
      && (forall x: nat :: Read(s, s', t, x) && s.rows[x].oldestWts < th.ts <= s.rows[x].latestWts ==> Finds(s.rows[x].slots, th.ts))
      && (forall k: nat :: Look(s, s', t, k) && !th.acc[k].write ==> s.rows[th.acc[k].row].oldestWts < th.ts)
  }

  /** `cores` is the number of threads the rows are configured for. */
  ghost predicate Init(s: State, db: Db, cores: nat) {
    && |s.rows| == |db| && s.order == [] && s.log == [] && s.looked == [] && s.dealt == {}
    && (forall x :: 0 <= x < |db| ==> s.rows[x] == M.InitRow(db[x], cores))
    && (forall t :: 0 <= t < |s.threads| ==> s.threads[t] == Idle)
  }

  ghost predicate Run(run: seq<State>, who: seq<nat>, db: Db, cores: nat) {
    && run != [] && |who| == |run| - 1
    && Init(run[0], db, cores)
    && forall i :: 0 <= i < |who| ==> Step(run[i], run[i + 1], who[i])
  }
}
