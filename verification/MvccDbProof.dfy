/** Multi-version timestamp ordering is serializable in timestamp order: as long as no transaction
    looks at a buffer its row has given away, every run of a whole database is equivalent to a
    serial one. */
module MvccDbProof {
  import opened Serial
  import opened Versions
  import opened SerialOrder
  import opened MvccDb
  import opened MvccDbSys
  import opened MvccDbLooks
  import H = MvccHistory
  import M = Mvcc

  // ---------------------------------------------------------------- the invariant

  /** What the transaction has seen is the newest version before it, and what a read is going to
      see is that version's buffer for as long as the row remembers it. */
  ghost predicate SeenOk(rows: seq<M.Row>, ts: nat, a: Access) {
    && a.row < |rows|
    && var r := rows[a.row];
    && r.all != [] && ts > 0
    && (!a.write ==> M.Served(ts, M.Newer(r.all, ts - 1), a.buf) in r.served)
    && (forall j :: 0 <= j < |a.looks| ==> a.looks[j] == ValueAt(r.all, ts - 1))
  }

  ghost predicate SeesRight(rows: seq<M.Row>, th: Thread) {
    !th.Idle? ==> forall k :: 0 <= k < |th.acc| ==> SeenOk(rows, th.ts, th.acc[k])
  }

  ghost predicate Values(s: State) {
    forall t :: 0 <= t < |s.threads| ==> SeesRight(s.rows, s.threads[t])
  }

  ghost predicate Committing(threads: seq<Thread>, ts: nat) {
    exists t :: 0 <= t < |threads| && Committed(threads[t]) && threads[t].ts == ts
  }

  /** The versions of a row with the one that is committed but not yet returned. */
  ghost function History(threads: seq<Thread>, r: M.Row): seq<Version> {
    if r.pending && Committing(threads, r.preTs) then r.all + [Version(r.preTs, Buffer(r))] else r.all
  }

  ghost predicate Reached(threads: seq<Thread>, r: M.Row, ts: nat) {
    Settled(r, ts) || (r.pending && r.preTs == ts && Committing(threads, ts))
  }

  ghost predicate TxnOk(s: State, u: Txn) {
    forall x :: x in u.seen || x in u.written ==> x < |s.rows| && Reached(s.threads, s.rows[x], u.ts)
  }

  ghost function HistoriesOf(s: State): Histories {
    seq(|s.rows|, x requires 0 <= x < |s.rows| => History(s.threads, s.rows[x]))
  }

  /** Every look of the committed transaction showed what it is recorded to have seen, and it is
      recorded to have seen nothing else. */
  ghost predicate Saw(u: Txn, acc: seq<Access>) {
    && (forall k, j :: 0 <= k < |acc| && 0 <= j < |acc[k].looks| ==>
          acc[k].row in u.seen && acc[k].looks[j] == u.seen[acc[k].row])
    && (forall x :: x in u.seen ==> Looked(acc, x))
  }

  ghost predicate LogOk(log: seq<Txn>, looked: seq<seq<Access>>) {
    |looked| == |log| && forall i :: 0 <= i < |log| ==> Saw(log[i], looked[i])
  }

  ghost predicate OrderOk(s: State, db: Db) {
    && Follows(HistoriesOf(s), db, s.order, s.log) && LogOk(s.log, s.looked)
    && (forall i :: 0 <= i < |s.order| ==> TxnOk(s, s.order[i]))
  }

  ghost predicate Inv(s: State, db: Db) {
    Sys(s) && Values(s) && OrderOk(s, db)
  }

  // ---------------------------------------------------------------- what transactions see

  lemma SeenStays(rows: seq<M.Row>, rows': seq<M.Row>, ts: nat, a: Access)
    requires AccOk(rows, ts, a) && SeenOk(rows, ts, a) && |rows'| == |rows|
    requires Evolves(rows[a.row], rows'[a.row], ts)
    ensures SeenOk(rows', ts, a)
  {
  }

  /** A thread that is not acting goes on seeing what it should. */
  lemma OtherSees(s: State, s': State, th: Thread)
    requires ThreadOk(s, th) && SeesRight(s.rows, th) && |s'.rows| == |s.rows|
    requires !th.Idle? ==> forall x :: 0 <= x < |s.rows| ==> Evolves(s.rows[x], s'.rows[x], th.ts)
    ensures SeesRight(s'.rows, th)
  {
    hide Evolves, FreshOn, NoVersion;
    if !th.Idle? {
      forall k | 0 <= k < |th.acc| ensures SeenOk(s'.rows, th.ts, th.acc[k]) {
        assert AccOk(s.rows, th.ts, th.acc[k]) && SeenOk(s.rows, th.ts, th.acc[k]);
        SeenStays(s.rows, s'.rows, th.ts, th.acc[k]);
      }
    }
  }

  /** A step that changes no row and hands out nothing. */
  lemma QuietSees(s: State, s': State, t: nat)
    requires Values(s) && t < |s.threads| && s'.rows == s.rows && |s'.threads| == |s.threads|
    requires s'.threads == s.threads[t := s'.threads[t]]
    requires var th, th' := s.threads[t], s'.threads[t];
             th'.Idle? || th'.acc == [] || (!th.Idle? && th'.ts == th.ts && th'.acc <= th.acc)
    ensures Values(s')
  {
    hide SeenOk;
    forall u | 0 <= u < |s'.threads| ensures SeesRight(s'.rows, s'.threads[u]) {
      assert SeesRight(s.rows, s.threads[u]);
    }
  }

  /** A read that is not misled is served the newest version before it. */
  lemma ReadIsServed(s: State, s': State, t: nat, x: nat, code: M.Code, buf: nat)
    requires Sys(s) && Read(s, s', t, x) && Careful(s, s', t) && code == M.Ok
    requires M.Inv(s.rows[x]) && M.FreshTs(s.rows[x], s.threads[t].ts) && s.rows[x].all != [] && s.rows[x].reqs != []
    requires M.Read(s.rows[x], s.threads[t].ts, t) == (s'.rows[x], code, buf)
    ensures M.Served(s.threads[t].ts, M.Newer(s.rows[x].all, s.threads[t].ts - 1), buf) in s'.rows[x].served
  {
    hide M.Inv, M.Read, M.Live, M.Holds, H.Finds, M.Newer, Sys;
    var r, ts := s.rows[x], s.threads[t].ts;
    M.ReadKeeps(r, ts, t);
    OldestUsed(r, ts);
  }

  lemma OldestUsed(r: M.Row, ts: nat)
    requires M.Inv(r) && M.FreshTs(r, ts)
    ensures ts != r.oldestWts
  {
    hide M.StoreOk;
    M.OldestIsUsed(r);
  }

  lemma RequestSees(s: State, s': State, t: nat, x: nat, write: bool, code: M.Code, buf: nat)
    requires Sys(s) && Values(s) && Requests(s, s', t, x, write, code, buf)
    requires code == M.Ok && !write ==> M.Served(s.threads[t].ts, M.Newer(s.rows[x].all, s.threads[t].ts - 1), buf) in s'.rows[x].served
    ensures Values(s')
  {
    hide Answer, Evolves, ThreadOk, RowOk, Unique, AccOk, SeenOk;
    forall u | 0 <= u < |s'.threads| ensures SeesRight(s'.rows, s'.threads[u]) {
      assert SeesRight(s.rows, s.threads[u]) && ThreadOk(s, s.threads[u]);
      if u == t {
        RequesterSees(s, s', t, x, write, code, buf);
      } else {
        RequestOther(s, s', t, x, write, code, buf, u);
        OtherSees(s, s', s.threads[u]);
      }
    }
  }

  lemma RequesterSees(s: State, s': State, t: nat, x: nat, write: bool, code: M.Code, buf: nat)
    requires Requests(s, s', t, x, write, code, buf) && SeesRight(s.rows, s.threads[t])
    requires code == M.Ok && !write ==> M.Served(s.threads[t].ts, M.Newer(s.rows[x].all, s.threads[t].ts - 1), buf) in s'.rows[x].served
    ensures SeesRight(s'.rows, s'.threads[t])
  {
    hide M.Inv, M.Live, M.Newer, ValueAt;
    var th, th' := s.threads[t], s'.threads[t];
    forall k | 0 <= k < |th'.acc| ensures SeenOk(s'.rows, th.ts, th'.acc[k]) {
      if k < |th.acc| {
        assert SeenOk(s.rows, th.ts, th.acc[k]) && th'.acc[k] == th.acc[k];
      } else {
        assert th'.acc[k] == Granted(x, write, buf);
      }
    }
  }

  /** A look at a buffer whose version is remembered, or at an own copy, shows the right value. */
  lemma LookIsRight(s: State, s': State, t: nat, k: nat)
    requires Sys(s) && Values(s) && Look(s, s', t, k) && Careful(s, s', t)
    ensures var a := s.threads[t].acc[k];
            s.rows[a.row].all != [] && s.threads[t].ts > 0
            && Contents(s.rows[a.row], a.buf) == ValueAt(s.rows[a.row].all, s.threads[t].ts - 1)
  {
    hide M.Live, M.Inv, Owned, FreshOn, NoVersion, Unique;
    var th := s.threads[t];
    var a := th.acc[k];
    var r := s.rows[a.row];
    assert ThreadOk(s, th) && AccOk(s.rows, th.ts, a) && RowOk(s.threads, s.dealt, a.row, r);
    assert SeesRight(s.rows, th) && SeenOk(s.rows, th.ts, a);
    if a.write {
      PendingIsLast(r);
      AtLast(r.all, th.ts - 1);
    } else {
      Remembered(r, th.ts);
      M.ServedValue(r, M.Served(th.ts, M.Newer(r.all, th.ts - 1), a.buf));
    }
  }

  /** The condition on looks is exact: the buffer of a read is where its version is stored as
      long as the row's oldest version is older than the read, and no longer. */
  lemma RememberedMeans(s: State, t: nat, k: nat)
    requires Sys(s) && Values(s) && t < |s.threads| && s.threads[t].Running?
    requires k < |s.threads[t].acc| && !s.threads[t].acc[k].write
    ensures var ts, a := s.threads[t].ts, s.threads[t].acc[k];
      && a.row < |s.rows| && s.rows[a.row].all != [] && ts > 0
      && var r := s.rows[a.row];
      M.Holds(r.slots, r.oldestWts, r.base, M.Newer(r.all, ts - 1).ts, a.buf) <==> r.oldestWts < ts
  {
    hide M.Live, M.Inv, M.Holds, M.Newer, Owned, FreshOn, NoVersion, Unique;
    var th := s.threads[t];
    var a := th.acc[k];
    assert ThreadOk(s, th) && AccOk(s.rows, th.ts, a) && RowOk(s.threads, s.dealt, a.row, s.rows[a.row]);
    assert SeesRight(s.rows, th) && SeenOk(s.rows, th.ts, a);
    var r := s.rows[a.row];
    Remembered(r, th.ts);
    M.ServedValue(r, M.Served(th.ts, M.Newer(r.all, th.ts - 1), a.buf));
  }

  lemma PendingIsLast(r: M.Row)
    requires M.Inv(r) && r.pending
    ensures r.all != [] && Last(r.all).ts < r.preTs
  {
  }

  /** The version of a read is remembered exactly while the row's oldest one is older. */
  lemma Remembered(r: M.Row, ts: nat)
    requires M.Inv(r) && ts > 0
    ensures r.all != [] && (r.oldestWts <= M.Newer(r.all, ts - 1).ts <==> r.oldestWts < ts)
  {
    if r.oldestWts < ts { M.NoLater(r.all, r.oldestWts, ts - 1); }
  }

  lemma WorksSees(s: State, s': State, t: nat, k: nat, b: Access)
    requires Sys(s) && Values(s) && Works(s, s', t, k, b) && SeenOk(s'.rows, s.threads[t].ts, b)
    ensures Values(s')
  {
    hide AccOk, SeenOk, Evolves, ThreadOk, RowOk, Unique;
    forall u | 0 <= u < |s'.threads| ensures SeesRight(s'.rows, s'.threads[u]) {
      assert SeesRight(s.rows, s.threads[u]) && ThreadOk(s, s.threads[u]);
      if u == t {
        WorkerSees(s, s', t, k, b);
      } else {
        WorksOther(s, s', t, k, b, u);
        OtherSees(s, s', s.threads[u]);
      }
    }
  }

  lemma WorkerSees(s: State, s': State, t: nat, k: nat, b: Access)
    requires Works(s, s', t, k, b) && SeesRight(s.rows, s.threads[t]) && SeenOk(s'.rows, s.threads[t].ts, b)
    ensures SeesRight(s'.rows, s'.threads[t])
  {
    hide M.Inv, AccOk, M.Newer, ValueAt;
    var th, th' := s.threads[t], s'.threads[t];
    forall j | 0 <= j < |th'.acc| ensures SeenOk(s'.rows, th.ts, th'.acc[j]) {
      if j != k { assert SeenOk(s.rows, th.ts, th.acc[j]); }
    }
  }

  lemma LookSees(s: State, s': State, t: nat, k: nat)
    requires Sys(s) && Values(s) && Look(s, s', t, k) && Careful(s, s', t)
    ensures Values(s')
  {
    hide Sys, Works, M.Newer, ValueAt;
    LookIsRight(s, s', t, k);
    var b := LookWorks(s, s', t, k);
    assert SeesRight(s.rows, s.threads[t]) && SeenOk(s.rows, s.threads[t].ts, s.threads[t].acc[k]);
    WorksSees(s, s', t, k, b);
  }

  lemma FillSees(s: State, s': State, t: nat, k: nat, v: Val)
    requires Sys(s) && Values(s) && Fill(s, s', t, k, v)
    ensures Values(s')
  {
    hide Sys, M.Inv, AccOk;
    var b := FillWorks(s, s', t, k, v);
    assert SeesRight(s.rows, s.threads[t]) && SeenOk(s.rows, s.threads[t].ts, s.threads[t].acc[k]);
    WorksSees(s, s', t, k, b);
  }

  lemma ReturnSees(s: State, s': State, t: nat, x: nat, d: M.Row, ws: seq<M.Wakeup>)
    requires Sys(s) && Values(s) && Returns(s, s', t, x, d, ws)
    ensures Values(s')
  {
    hide Left, Resumes, RowOk, AccOk, FreshOn, NoVersion, Unique, SeenOk, Evolves;
    forall u | 0 <= u < |s'.threads| ensures SeesRight(s'.rows, s'.threads[u]) {
      assert SeesRight(s.rows, s.threads[u]) && ThreadOk(s, s.threads[u]);
      if u == t {
        ReturnerSees(s, s', t, x, d, ws);
      } else {
        ReturnOther(s, s', t, x, d, ws, u);
        OtherSees(s, s', s.threads[u]);
        var i := ResumeIs(s, s', t, x, d, ws, u);
        if i >= 0 { WokenSees(s, s', t, x, d, ws, u, i); }
      }
    }
  }

  lemma ReturnerSees(s: State, s': State, t: nat, x: nat, d: M.Row, ws: seq<M.Wakeup>)
    requires Returns(s, s', t, x, d, ws) && SeesRight(s.rows, s.threads[t]) && ThreadOk(s, s.threads[t])
    ensures SeesRight(s'.rows, s'.threads[t])
  {
    hide Left, Resumes, AccOk, FreshOn, NoVersion, M.Newer, ValueAt;
    var th, th' := s.threads[t], s'.threads[t];
    forall k | 0 <= k < |th'.acc| ensures SeenOk(s'.rows, th.ts, th'.acc[k]) {
      assert th'.acc[k] == th.acc[k] && SeenOk(s.rows, th.ts, th.acc[k]);
      assert th.acc[k].row != th.acc[|th.acc| - 1].row;
    }
  }

  /** A woken read is handed the buffer of the newest version before it. */
  lemma WokenSees(s: State, s': State, t: nat, x: nat, d: M.Row, ws: seq<M.Wakeup>, u: nat, i: nat)
    requires Returns(s, s', t, x, d, ws) && u < |s.threads| && u != t && i < |ws|
    requires SeesRight(s'.rows, s.threads[u]) && Asked(s.threads, x, ws[i].req) && ws[i].req.txn == u && s.threads[u].ts > 0
    requires s'.threads[u] == Running(s.threads[u].ts, s.threads[u].acc + [Granted(x, s.threads[u].write, ws[i].row)])
    ensures SeesRight(s'.rows, s'.threads[u])
  {
    hide M.GotRight, M.Live, M.Inv, Resumes, Settled, Reserved, Buffer, M.Newer, ValueAt;
    HandedRight(d, ws, i);
    HasVersion(d);
    var th, th' := s.threads[u], s'.threads[u];
    forall k | 0 <= k < |th'.acc| ensures SeenOk(s'.rows, th.ts, th'.acc[k]) {
      if k < |th.acc| { assert th'.acc[k] == th.acc[k] && SeenOk(s'.rows, th.ts, th.acc[k]); }
    }
  }

  /** What the transactions see stays right through every careful step. */
  lemma StepSees(s: State, s': State, t: nat)
    requires Sys(s) && Values(s) && Step(s, s', t) && Careful(s, s', t)
    ensures Values(s')
  {
    hide Sys, Values, Read, Prewrite, Look, Fill, ReturnWrite, Requests, Returns, Careful, Insert, TxnOf, M.FreshTs;
    if x: nat :| Read(s, s', t, x) {
      var code, buf := ReadRequests(s, s', t, x);
      if code == M.Ok { ReadIsServed(s, s', t, x, code, buf); }
      RequestSees(s, s', t, x, false, code, buf);
    } else if x: nat, minTs :| Prewrite(s, s', t, x, minTs) {
      var code, buf := PrewriteRequests(s, s', t, x, minTs);
      RequestSees(s, s', t, x, true, code, buf);
    } else if k: nat :| Look(s, s', t, k) {
      LookSees(s, s', t, k);
    } else if k: nat, v :| Fill(s, s', t, k, v) {
      FillSees(s, s', t, k, v);
    } else if minTs :| ReturnWrite(s, s', t, minTs) {
      var x, d, ws := ReturnsWell(s, s', t, minTs);
      ReturnSees(s, s', t, x, d, ws);
    } else {
      QuietSees(s, s', t);
    }
  }

  // ---------------------------------------------------------------- the order through steps other than commits

  /** The order stays right when histories, and who is committing, stay the same. */
  lemma OrderStays(s: State, s': State, db: Db)
    requires OrderOk(s, db) && s'.order == s.order && s'.log == s.log && s'.looked == s.looked && |s'.rows| == |s.rows|
    requires forall x :: 0 <= x < |s.rows| ==>
               && s'.rows[x].all != []
               && History(s'.threads, s'.rows[x]) == History(s.threads, s.rows[x])
               && forall ts :: Reached(s.threads, s.rows[x], ts) ==> Reached(s'.threads, s'.rows[x], ts)
    ensures OrderOk(s', db)
  {
    assert HistoriesOf(s') == HistoriesOf(s);
    forall i | 0 <= i < |s'.order| ensures TxnOk(s', s'.order[i]) { assert TxnOk(s, s.order[i]); }
  }

  /** Who commits does not change. */
  lemma QuietOrder(s: State, s': State, t: nat, db: Db)
    requires Sys(s) && OrderOk(s, db) && t < |s.threads| && |s'.threads| == |s.threads| && s'.threads == s.threads[t := s'.threads[t]]
    requires s'.rows == s.rows && s'.order == s.order && s'.log == s.log && s'.looked == s.looked
    requires Committed(s'.threads[t]) == Committed(s.threads[t])
    requires Committed(s.threads[t]) ==> s'.threads[t].ts == s.threads[t].ts
    ensures OrderOk(s', db)
  {
    forall x | 0 <= x < |s.rows|
      ensures s.rows[x].all != [] && History(s'.threads, s'.rows[x]) == History(s.threads, s.rows[x])
    {
      assert RowOk(s.threads, s.dealt, x, s.rows[x]);
      HasVersion(s.rows[x]);
      SameCommitting(s.threads, s'.threads, t, s.rows[x].preTs);
    }
    forall ts ensures Committing(s'.threads, ts) == Committing(s.threads, ts) { SameCommitting(s.threads, s'.threads, t, ts); }
    OrderStays(s, s', db);
  }

  lemma SameCommitting(a: seq<Thread>, b: seq<Thread>, t: nat, ts: nat)
    requires t < |a| && |b| == |a| && b == a[t := b[t]] && Committed(b[t]) == Committed(a[t])
    requires Committed(a[t]) ==> b[t].ts == a[t].ts
    ensures Committing(b, ts) == Committing(a, ts)
  {
    if Committing(a, ts) {
      var u :| 0 <= u < |a| && Committed(a[u]) && a[u].ts == ts;
      assert Committed(b[u]) && b[u].ts == ts;
    }
    if Committing(b, ts) {
      var u :| 0 <= u < |b| && Committed(b[u]) && b[u].ts == ts;
      assert Committed(a[u]) && a[u].ts == ts;
    }
  }

  /** A transaction that has returned all its rows is committing nowhere any more. */
  lemma FinishOrder(s: State, s': State, t: nat, db: Db)
    requires Sys(s) && OrderOk(s, db) && Finish(s, s', t)
    ensures OrderOk(s', db)
  {
    forall x | 0 <= x < |s.rows| && s.rows[x].pending
      ensures Committing(s'.threads, s.rows[x].preTs) == Committing(s.threads, s.rows[x].preTs)
    {
      assert RowOk(s.threads, s.dealt, x, s.rows[x]);
      FinishedOwnsNothing(s, t, x);
    }
    forall x | 0 <= x < |s.rows| ensures s.rows[x].all != [] { assert RowOk(s.threads, s.dealt, x, s.rows[x]); HasVersion(s.rows[x]); }
    OrderStays(s, s', db);
  }

  lemma FinishedOwnsNothing(s: State, t: nat, x: nat)
    requires Sys(s) && t < |s.threads| && s.threads[t].Ending? && s.threads[t].acc == []
    requires x < |s.rows| && s.rows[x].pending
    ensures Committing(s.threads[t := Idle], s.rows[x].preTs) == Committing(s.threads, s.rows[x].preTs)
  {
    var ts := s.rows[x].preTs;
    assert RowOk(s.threads, s.dealt, x, s.rows[x]);
    assert s.threads[t].ts != ts;
    if Committing(s.threads, ts) {
      var u :| 0 <= u < |s.threads| && Committed(s.threads[u]) && s.threads[u].ts == ts;
      assert Committed(s.threads[t := Idle][u]);
    }
  }

  lemma RequestOrder(s: State, s': State, t: nat, x: nat, write: bool, code: M.Code, buf: nat, db: Db)
    requires Sys(s) && OrderOk(s, db) && Requests(s, s', t, x, write, code, buf)
    ensures OrderOk(s', db)
  {
    hide OrderOk, M.Inv, ThreadOk, Buffer, M.Live;
    forall ts ensures Committing(s'.threads, ts) == Committing(s.threads, ts) { SameCommitting(s.threads, s'.threads, t, ts); }
    NotCommitting(s, t);
    forall y | 0 <= y < |s.rows|
      ensures && s'.rows[y].all != [] && History(s'.threads, s'.rows[y]) == History(s.threads, s.rows[y])
              && forall ts :: Reached(s.threads, s.rows[y], ts) ==> Reached(s'.threads, s'.rows[y], ts)
    {
      assert RowOk(s.threads, s.dealt, y, s.rows[y]);
      HasVersion(s.rows[y]);
    }
    OrderStays(s, s', db);
  }

  lemma NotCommitting(s: State, t: nat)
    requires Unique(s) && t < |s.threads| && !s.threads[t].Idle? && !Committed(s.threads[t])
    ensures !Committing(s.threads, s.threads[t].ts)
  {
  }

  lemma WorksOrder(s: State, s': State, t: nat, k: nat, b: Access, db: Db)
    requires Sys(s) && OrderOk(s, db) && Works(s, s', t, k, b)
    ensures OrderOk(s', db)
  {
    hide OrderOk, M.Inv, M.Live, ThreadOk, AccOk, M.HasBuffer;
    WorksUnique(s, s', t, k, b);
    forall ts ensures Committing(s'.threads, ts) == Committing(s.threads, ts) { SameCommitting(s.threads, s'.threads, t, ts); }
    NotCommitting(s, t);
    forall y | 0 <= y < |s.rows|
      ensures && s'.rows[y].all != [] && History(s'.threads, s'.rows[y]) == History(s.threads, s.rows[y])
              && forall ts :: Reached(s.threads, s.rows[y], ts) ==> Reached(s'.threads, s'.rows[y], ts)
    {
      assert RowOk(s.threads, s.dealt, y, s.rows[y]);
      HasVersion(s.rows[y]);
    }
    OrderStays(s, s', db);
  }

  // ---------------------------------------------------------------- committing

  /** A settled read is the row's value as of its time, with or without the pending write. */
  lemma SettledIs(r: M.Row, ts: nat, v: Val)
    requires M.Inv(r) && ts > 0 && Settled(r, ts) && (forall k :: 0 <= k < |r.all| ==> r.all[k].ts != ts)
    ensures ValueAt(r.all, ts - 1) == ValueAt(r.all, ts)
    ensures r.pending ==> ValueAt(r.all + [Version(r.preTs, v)], ts) == ValueAt(r.all, ts)
  {
    NoneAt(r.all, ts);
    if r.pending { Append(r.all, Version(r.preTs, v), ts); }
  }

  /** What the committing transaction saw of a row is the row's history as of its time. */
  lemma GotIsHistory(s: State, t: nat, x: nat)
    requires Sys(s) && Values(s) && t < |s.threads| && s.threads[t].Running? && Looked(s.threads[t].acc, x)
    ensures x < |s.rows| && s.rows[x].all != []
    ensures Got(s.threads[t].acc, x) == ValueAt(History(s.threads, s.rows[x]), s.threads[t].ts)
  {
    hide M.Inv, Buffer, Settled, ValueAt, FreshOn, M.Live, Reserved, M.Newer, Owned, AccOk, History, NoVersion;
    var th := s.threads[t];
    var k :| 0 <= k < |th.acc| && th.acc[k].row == x && th.acc[k].looks != [] && th.acc[k].looks[0] == Got(th.acc, x);
    assert ThreadOk(s, th) && AccOk(s.rows, th.ts, th.acc[k]);
    assert SeesRight(s.rows, th) && SeenOk(s.rows, th.ts, th.acc[k]);
    assert RowOk(s.threads, s.dealt, x, s.rows[x]);
    NotCommitting(s, t);
    HistoryAt(s, th, th.acc[k]);
  }

  /** Around the timestamp of a transaction that has not committed nothing has been written to a
      row that it has been granted. */
  lemma HistoryAt(s: State, th: Thread, a: Access)
    requires !th.Idle? && AccOk(s.rows, th.ts, a) && M.Inv(s.rows[a.row]) && NoVersion(s.rows, th.ts)
    requires !Committing(s.threads, th.ts)
    ensures ValueAt(History(s.threads, s.rows[a.row]), th.ts) == ValueAt(s.rows[a.row].all, th.ts - 1)
  {
    hide M.Inv, Settled, ValueAt, Buffer, Reserved;
    var r := s.rows[a.row];
    IsAscending(r);
    if a.write {
      NoneAt(r.all, th.ts);
    } else {
      SettledIs(r, th.ts, Buffer(r));
    }
  }

  lemma IsAscending(r: M.Row)
    requires M.Inv(r)
    ensures Ascending(r.all)
  {
  }

  /** All looks of one transaction at one row show the same. */
  lemma CommitSaw(s: State, t: nat)
    requires Sys(s) && Values(s) && t < |s.threads| && s.threads[t].Running?
    ensures Saw(TxnOf(s.rows, s.threads[t].ts, s.threads[t].acc), s.threads[t].acc)
  {
    hide AccOk, FreshOn, NoVersion, RowOk, Unique;
    var th := s.threads[t];
    assert ThreadOk(s, th) && SeesRight(s.rows, th);
    forall k, j | 0 <= k < |th.acc| && 0 <= j < |th.acc[k].looks|
      ensures th.acc[k].row < |s.rows| && Looked(th.acc, th.acc[k].row) && th.acc[k].looks[j] == Got(th.acc, th.acc[k].row)
    {
      assert SeenOk(s.rows, th.ts, th.acc[k]);
      var m :| 0 <= m < |th.acc| && th.acc[m].row == th.acc[k].row && th.acc[m].looks != [] && th.acc[m].looks[0] == Got(th.acc, th.acc[k].row);
      assert SeenOk(s.rows, th.ts, th.acc[m]);
    }
  }

  lemma NoneAt(h: seq<Version>, ts: nat)
    requires Ascending(h) && ts > 0 && forall k :: 0 <= k < |h| ==> h[k].ts != ts
    ensures ValueAt(h, ts) == ValueAt(h, ts - 1)
  {
    assert IndexAt(h, ts) == IndexAt(h, ts - 1);
  }

  /** No transaction with a later timestamp has read or written a row that is being written. */
  lemma CommitIsUntouched(s: State, t: nat, u: Txn)
    requires Sys(s) && t < |s.threads| && s.threads[t].Running? && TxnOk(s, u) && u.ts > s.threads[t].ts
    ensures Untouched(TxnOf(s.rows, s.threads[t].ts, s.threads[t].acc), u)
  {
    var th := s.threads[t];
    var txn := TxnOf(s.rows, th.ts, th.acc);
    forall x | x in txn.written ensures x !in u.seen && x !in u.written {
      var k :| 0 <= k < |th.acc| && th.acc[k].row == x && th.acc[k].write;
      assert ThreadOk(s, th) && AccOk(s.rows, th.ts, th.acc[k]) && RowOk(s.threads, s.dealt, x, s.rows[x]);
    }
  }

  /** The committing transaction overwrites exactly the rows on which its own write is pending. */
  lemma OverwritesOwn(s: State, t: nat, x: nat)
    requires Sys(s) && t < |s.threads| && s.threads[t].Running? && x < |s.rows|
    ensures Overwrites(s.threads[t].acc, x) <==> s.rows[x].pending && s.rows[x].preTs == s.threads[t].ts
  {
    hide M.Inv, M.Live, FreshOn, NoVersion, Settled, Reserved;
    var th, r := s.threads[t], s.rows[x];
    assert RowOk(s.threads, s.dealt, x, r) && ThreadOk(s, th);
    if Overwrites(th.acc, x) {
      var k :| 0 <= k < |th.acc| && th.acc[k].row == x && th.acc[k].write;
      assert AccOk(s.rows, th.ts, th.acc[k]);
    }
    if r.pending && r.preTs == th.ts { OwnerIs(s, t, x); }
  }

  /** The commit adds the new versions to exactly the histories of the rows it writes. */
  lemma CommitHistory(s: State, s': State, t: nat, x: nat)
    requires Sys(s) && Commit(s, s', t) && x < |s.rows|
    ensures var txn := TxnOf(s.rows, s.threads[t].ts, s.threads[t].acc);
      && History(s'.threads, s'.rows[x]) ==
         if x in txn.written then History(s.threads, s.rows[x]) + [Version(txn.ts, txn.written[x])]
         else History(s.threads, s.rows[x])
  {
    hide Sys, Insert, Looked, Got, Buffer, Overwrites, Committing;
    OverwritesOwn(s, t, x);
    IsUnique(s);
    NotCommitting(s, t);
    CommittingAfter(s, s', t, s.rows[x].preTs);
  }

  lemma IsUnique(s: State)
    requires Sys(s)
    ensures Unique(s)
  {
  }

  lemma OwnerIs(s: State, t: nat, x: nat)
    requires Unique(s) && t < |s.threads| && !s.threads[t].Idle? && Owned(s.threads, x, s.threads[t].ts)
    ensures Overwrites(s.threads[t].acc, x)
  {
  }

  lemma CommittingAfter(s: State, s': State, t: nat, ts: nat)
    requires Commit(s, s', t)
    ensures Committing(s'.threads, ts) <==> Committing(s.threads, ts) || ts == s.threads[t].ts
  {
    if Committing(s.threads, ts) {
      var u :| 0 <= u < |s.threads| && Committed(s.threads[u]) && s.threads[u].ts == ts;
      assert Committed(s'.threads[u]);
    }
    assert Committed(s'.threads[t]);
  }

  lemma CommitAppends(s: State, s': State, t: nat)
    requires Sys(s) && Commit(s, s', t)
    ensures Appends(HistoriesOf(s), HistoriesOf(s'), TxnOf(s.rows, s.threads[t].ts, s.threads[t].acc))
  {
    hide Sys, History, Insert, Got, Buffer, Looked, Overwrites;
    forall x: nat | x < |s.rows|
      ensures var txn := TxnOf(s.rows, s.threads[t].ts, s.threads[t].acc);
              History(s'.threads, s'.rows[x]) ==
              if x in txn.written then History(s.threads, s.rows[x]) + [Version(txn.ts, txn.written[x])]
              else History(s.threads, s.rows[x])
    {
      CommitHistory(s, s', t, x);
    }
  }

  /** The transaction may enter the serial order at its timestamp. */
  lemma CommitFits(s: State, t: nat, db: Db)
    requires Inv(s, db) && t < |s.threads| && s.threads[t].Running?
    ensures var txn := TxnOf(s.rows, s.threads[t].ts, s.threads[t].acc);
      && Legal(At(db, s.order, txn.ts), txn)
      && forall i :: 0 <= i < |s.order| && s.order[i].ts > txn.ts ==> Untouched(txn, s.order[i])
  {
    hide Sys, Values, Untouched;
    var txn := TxnOf(s.rows, s.threads[t].ts, s.threads[t].acc);
    assert Agrees(HistoriesOf(s), db, s.order, txn.ts);
    forall x | x in txn.seen ensures x < |db| && txn.seen[x] == At(db, s.order, txn.ts)[x] {
      GotIsHistory(s, t, x);
    }
    forall i | 0 <= i < |s.order| && s.order[i].ts > txn.ts ensures Untouched(txn, s.order[i]) {
      CommitIsUntouched(s, t, s.order[i]);
    }
  }

  lemma NewTxnOk(s: State, s': State, t: nat)
    requires Sys(s) && Commit(s, s', t)
    ensures TxnOk(s', TxnOf(s.rows, s.threads[t].ts, s.threads[t].acc))
  {
    var th := s.threads[t];
    assert ThreadOk(s, th);
    CommittingAfter(s, s', t, th.ts);
    forall x: nat | x < |s.rows| && Touches(th.acc, x) ensures Reached(s'.threads, s'.rows[x], th.ts) {
      var k :| 0 <= k < |th.acc| && th.acc[k].row == x;
      assert AccOk(s.rows, th.ts, th.acc[k]);
    }
    forall x: nat | x < |s.rows| && Overwrites(th.acc, x) ensures Touches(th.acc, x) {}
    forall x: nat | x < |s.rows| && Looked(th.acc, x) ensures Touches(th.acc, x) {}
  }

  lemma OldTxnOk(s: State, s': State, t: nat, u: Txn)
    requires Commit(s, s', t) && TxnOk(s, u)
    ensures TxnOk(s', u)
  {
    CommittingAfter(s, s', t, u.ts);
  }

  lemma CommitTxns(s: State, s': State, t: nat, db: Db)
    requires Inv(s, db) && Commit(s, s', t)
    ensures forall i :: 0 <= i < |s'.order| ==> TxnOk(s', s'.order[i])
  {
    hide Sys, Values, TxnOk, Replays, Agrees, TxnOf, Pos;
    var txn := TxnOf(s.rows, s.threads[t].ts, s.threads[t].acc);
    NewTxnOk(s, s', t);
    InsertMembers(s.order, txn);
    forall i | 0 <= i < |s'.order| ensures TxnOk(s', s'.order[i]) {
      if s'.order[i] != txn {
        var j :| 0 <= j < |s.order| && s.order[j] == s'.order[i];
        OldTxnOk(s, s', t, s.order[j]);
      }
    }
  }

  lemma CommitOrders(s: State, s': State, t: nat, db: Db)
    requires Inv(s, db) && Commit(s, s', t)
    ensures OrderOk(s', db)
  {
    hide Sys, Values, TxnOk, Replays, Legal, Untouched, Agrees, Appends, TxnOf, Insert, Saw;
    var txn := TxnOf(s.rows, s.threads[t].ts, s.threads[t].acc);
    CommitFits(s, t, db);
    CommitAppends(s, s', t);
    CommitIsAt(s, s', t);
    CommitFollows(HistoriesOf(s), HistoriesOf(s'), db, s.order, s.log, txn);
    CommitTxns(s, s', t, db);
    CommitSaw(s, t);
  }

  lemma CommitIsAt(s: State, s': State, t: nat)
    requires Commit(s, s', t)
    ensures TxnOf(s.rows, s.threads[t].ts, s.threads[t].acc).ts == s.threads[t].ts
  {
  }

  // ---------------------------------------------------------------- returning a written row

  lemma ReturnCommitting(s: State, s': State, t: nat, x: nat, d: M.Row, ws: seq<M.Wakeup>, ts: nat)
    requires Sys(s) && Returns(s, s', t, x, d, ws)
    ensures Committing(s'.threads, ts) == Committing(s.threads, ts)
  {
    hide Left, Resumes, Sys;
    ReturnUnique(s, s', t, x, d, ws);
    if Committing(s.threads, ts) {
      var u :| 0 <= u < |s.threads| && Committed(s.threads[u]) && s.threads[u].ts == ts;
      assert Committed(s'.threads[u]) && s'.threads[u].ts == ts;
    }
    if Committing(s'.threads, ts) {
      var u :| 0 <= u < |s'.threads| && Committed(s'.threads[u]) && s'.threads[u].ts == ts;
      assert Committed(s.threads[u]) && s.threads[u].ts == ts;
    }
  }

  /** Returning the row changes no history: a committed version moves from the buffer into the
      versions. */
  lemma ReturnHistory(s: State, s': State, t: nat, x: nat, d: M.Row, ws: seq<M.Wakeup>)
    requires Sys(s) && Returns(s, s', t, x, d, ws)
    ensures d.all != [] && History(s'.threads, d) == History(s.threads, s.rows[x])
    ensures forall ts :: Reached(s.threads, s.rows[x], ts) ==> Reached(s'.threads, d, ts)
  {
    hide M.GotRight, M.Live, Resumes, AccOk, Buffer, M.Inv, ThreadOk, RowOk, Committing;
    forall ts ensures Committing(s'.threads, ts) == Committing(s.threads, ts) { ReturnCommitting(s, s', t, x, d, ws, ts); }
    HasVersion(d);
    assert Committing(s.threads, s.rows[x].preTs) == s.threads[t].commit by { OwnCommits(s, t); }
    if d.pending {
      var j :| 0 <= j < |ws| && ws[j].req.kind == M.P && ws[j].req.ts == d.preTs;
      WokenWaits(s, s', t, x, d, ws, j);
      NotCommitting(s, ws[j].req.txn);
    }
    LatestTs(d);
  }

  lemma LatestTs(d: M.Row)
    requires M.Inv(d)
    ensures d.all != [] && Last(d.all).ts == d.latestWts
  {
  }

  lemma OwnCommits(s: State, t: nat)
    requires Unique(s) && t < |s.threads| && s.threads[t].Ending?
    ensures Committing(s.threads, s.threads[t].ts) == s.threads[t].commit
  {
  }

  lemma ReturnOrder(s: State, s': State, t: nat, x: nat, d: M.Row, ws: seq<M.Wakeup>, db: Db)
    requires Sys(s) && OrderOk(s, db) && Returns(s, s', t, x, d, ws)
    ensures OrderOk(s', db)
  {
    hide M.Inv, M.GotRight, M.Live, Resumes, ThreadOk, OrderOk, Unique, Settled;
    forall ts ensures Committing(s'.threads, ts) == Committing(s.threads, ts) { ReturnCommitting(s, s', t, x, d, ws, ts); }
    ReturnHistory(s, s', t, x, d, ws);
    forall y | 0 <= y < |s.rows|
      ensures && s'.rows[y].all != [] && History(s'.threads, s'.rows[y]) == History(s.threads, s.rows[y])
              && forall ts :: Reached(s.threads, s.rows[y], ts) ==> Reached(s'.threads, s'.rows[y], ts)
    {
      assert RowOk(s.threads, s.dealt, y, s.rows[y]);
      HasVersion(s.rows[y]);
    }
    OrderStays(s, s', db);
  }

  // ---------------------------------------------------------------- whole runs

  lemma StepOrders(s: State, s': State, t: nat, db: Db)
    requires Inv(s, db) && Step(s, s', t)
    ensures OrderOk(s', db)
  {
    hide Inv, Sys, Values, OrderOk, Read, Prewrite, Look, Fill, Commit, ReturnWrite, Requests, Returns, Works, Finish;
    InvIs(s, db);
    if x: nat :| Read(s, s', t, x) {
      var code, buf := ReadRequests(s, s', t, x);
      RequestOrder(s, s', t, x, false, code, buf, db);
    } else if x: nat, minTs :| Prewrite(s, s', t, x, minTs) {
      var code, buf := PrewriteRequests(s, s', t, x, minTs);
      RequestOrder(s, s', t, x, true, code, buf, db);
    } else if k: nat :| Look(s, s', t, k) {
      var b := LookWorks(s, s', t, k);
      WorksOrder(s, s', t, k, b, db);
    } else if k: nat, v :| Fill(s, s', t, k, v) {
      var b := FillWorks(s, s', t, k, v);
      WorksOrder(s, s', t, k, b, db);
    } else if Commit(s, s', t) {
      CommitOrders(s, s', t, db);
    } else if minTs :| ReturnWrite(s, s', t, minTs) {
      var x, d, ws := ReturnsWell(s, s', t, minTs);
      ReturnOrder(s, s', t, x, d, ws, db);
    } else if Finish(s, s', t) {
      FinishOrder(s, s', t, db);
    } else {
      QuietOrder(s, s', t, db);
    }
  }

  lemma InvIs(s: State, db: Db)
    requires Inv(s, db)
    ensures Sys(s) && Values(s) && OrderOk(s, db)
  {
  }

  lemma StepKeeps(s: State, s': State, t: nat, db: Db)
    requires Inv(s, db) && Step(s, s', t) && Careful(s, s', t)
    ensures Inv(s', db)
  {
    hide Sys, Values, OrderOk, Step, Careful;
    StepKeepsSys(s, s', t);
    StepSees(s, s', t);
    StepOrders(s, s', t, db);
  }

  lemma InitInv(s: State, db: Db, cores: nat)
    requires Init(s, db, cores)
    ensures Inv(s, db)
  {
    hide Sys;
    InitSys(s, db, cores);
    InitHistories(s, db, cores);
    StartFollows(HistoriesOf(s), db);
  }

  lemma InitHistories(s: State, db: Db, cores: nat)
    requires Init(s, db, cores)
    ensures |HistoriesOf(s)| == |db| && forall x :: 0 <= x < |db| ==> HistoriesOf(s)[x] == [Version(0, db[x])]
  {
  }

  /** The condition on a run: every step is careful. */
  ghost predicate CarefulRun(run: seq<State>, who: seq<nat>) {
    |who| == |run| - 1 && forall i :: 0 <= i < |who| ==> Careful(run[i], run[i + 1], who[i])
  }

  lemma {:induction false} RunInv(run: seq<State>, who: seq<nat>, db: Db, cores: nat)
    requires Run(run, who, db, cores) && CarefulRun(run, who)
    ensures Inv(run[|run| - 1], db)
  {
    hide Inv, Step, Init, Careful;
    if |run| == 1 {
      InitInv(run[0], db, cores);
    } else {
      var n := |run| - 2;
      assert Step(run[n], run[n + 1], who[n]) && Careful(run[n], run[n + 1], who[n]);
      RunInv(run[..n + 1], who[..n], db, cores);
      StepKeeps(run[n], run[n + 1], who[n], db);
    }
  }

  /** No committed transaction still has rows to return. */
  ghost predicate Quiet(s: State) {
    forall t :: 0 <= t < |s.threads| ==> !Committed(s.threads[t])
  }

  /** What serializability asks of a state: the committed transactions, in timestamp order,
      form a serial history in which every one of them reads exactly what every one of its
      looks has shown it, and the latest versions of the rows are that history's result. */
  ghost predicate SerialOutcome(s: State, db: Db) {
    && multiset(s.order) == multiset(s.log) && LogOk(s.log, s.looked)
    && Sorted(s.order)
    && Replays(db, s.order)
    && (Quiet(s) ==> |s.rows| == |db| && forall x :: 0 <= x < |db| ==> Contents(s.rows[x], s.rows[x].latestRow) == Exec(db, s.order)[x])
  }

  lemma LooksReported(log: seq<Txn>, looked: seq<seq<Access>>, albums: seq<Looks>)
    requires LogOk(log, looked) && Complete(looked, albums)
    ensures ReportsLooks(log, albums)
  {
    hide Saw, Lists;
    forall i | 0 <= i < |log|
      ensures forall p :: p in albums[i] ==> p.0 in log[i].seen && log[i].seen[p.0] == p.1
      ensures forall x :: x in log[i].seen ==> (x, log[i].seen[x]) in albums[i]
    {
      LookReported(log[i], looked[i], albums[i]);
    }
  }

  lemma LookReported(u: Txn, acc: seq<Access>, looks: Looks)
    requires Saw(u, acc) && Lists(acc, looks)
    ensures forall p :: p in looks ==> p.0 in u.seen && u.seen[p.0] == p.1
    ensures forall x :: x in u.seen ==> (x, u.seen[x]) in looks
  {
    forall p | p in looks ensures p.0 in u.seen && u.seen[p.0] == p.1 { assert Listed(acc, p.0, p.1); }
    forall x | x in u.seen ensures (x, u.seen[x]) in looks {
      assert Looked(acc, x);
      var k :| 0 <= k < |acc| && acc[k].row == x && acc[k].looks != [];
      assert acc[k].looks[0] == u.seen[x] && (acc[k].row, acc[k].looks[0]) in looks;
    }
  }

  /** Serializability: every run in which no old read is misled and no read looks at the buffer
      of a version its row has forgotten is equivalent to running the committed transactions one
      after the other in the order of their timestamps, whatever waits, aborts, is collected or
      is evicted on the way; and the commit log has seen exactly what every look that their bodies
      have taken in the run has shown. */
  lemma Serializable(run: seq<State>, who: seq<nat>, db: Db, cores: nat)
    requires Run(run, who, db, cores) && CarefulRun(run, who)
    ensures SerialOutcome(run[|run| - 1], db)
    ensures ReportsLooks(run[|run| - 1].log, Albums(run, who))
  {
    hide Replays, Step, Init, Albums, Saw, ReportsLooks;
    RunInv(run, who, db, cores);
    RunLooks(run, who, db, cores);
    LooksReported(run[|run| - 1].log, run[|run| - 1].looked, Albums(run, who));
    var s := run[|run| - 1];
    assert Agrees(HistoriesOf(s), db, s.order, 0);
    if Quiet(s) {
      forall x | 0 <= x < |s.rows| ensures Contents(s.rows[x], s.rows[x].latestRow) == Exec(db, s.order)[x] { QuietRow(s, x, db); }
    }
  }

  lemma QuietRow(s: State, x: nat, db: Db)
    requires Inv(s, db) && Quiet(s) && x < |s.rows|
    ensures |s.rows| == |db| && Contents(s.rows[x], s.rows[x].latestRow) == Exec(db, s.order)[x]
  {
    hide Replays, TxnOk, ThreadOk, M.Live, Owned, Sorted;
    var r := s.rows[x];
    assert RowOk(s.threads, s.dealt, x, r);
    LatestIs(r);
    assert !Committing(s.threads, r.preTs);
    LatestIsResult(HistoriesOf(s), db, s.order, s.log, x);
  }

  lemma LatestIs(r: M.Row)
    requires M.Inv(r)
    ensures r.all != [] && Contents(r, r.latestRow) == Last(r.all).value
  {
  }
}
