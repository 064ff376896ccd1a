/** What a Silo transaction achieves when nobody gets in its way: it reads what it likes, and it
    commits, with the least tid its accesses allow. */
module SiloAlone {
  import opened Serial
  import opened Versions
  import opened AccessList
  import opened Silo

  /** Steps of one thread lead from `s` to `e`. */
  ghost predicate Alone(s: State, e: State, t: nat) {
    exists run: seq<State> :: run != [] && run[0] == s && run[|run| - 1] == e && ByThread(run, t)
  }

  ghost predicate ByThread(run: seq<State>, t: nat) {
    forall i :: 0 <= i < |run| - 1 ==> Step(run[i], run[i + 1], t)
  }

  lemma Stay(s: State, t: nat)
    ensures Alone(s, s, t)
  {
    assert ByThread([s], t);
  }

  lemma Once(s: State, e: State, t: nat)
    requires Step(s, e, t)
    ensures Alone(s, e, t)
  {
    hide Step;
    assert ByThread([s, e], t);
  }

  lemma Then(a: State, b: State, c: State, t: nat)
    requires Alone(a, b, t) && Alone(b, c, t)
    ensures Alone(a, c, t)
  {
    hide Step;
    var p: seq<State> :| p != [] && p[0] == a && p[|p| - 1] == b && ByThread(p, t);
    var q: seq<State> :| q != [] && q[0] == b && q[|q| - 1] == c && ByThread(q, t);
    var run := p + q[1..];
    forall i | 0 <= i < |run| - 1 ensures Step(run[i], run[i + 1], t) {
      if i < |p| - 1 {
        assert Step(p[i], p[i + 1], t);
      } else {
        assert Step(q[i - |p| + 1], q[i - |p| + 2], t);
        assert run[i] == q[i - |p| + 1] && run[i + 1] == q[i - |p| + 2];
      }
    }
    assert ByThread(run, t);
  }

  // ---------------------------------------------------------------- reading a row

  /** A copy of the row as it is. */
  function CopyOf(r: Row, x: nat, write: bool): Access<nat> {
    Access(write, x, r.word.tid, r.data, r.data)
  }

  ghost predicate CanRead(s: State, t: nat, x: nat) {
    && t < |s.threads| && x < |s.rows| && s.threads[t].Running?
    && (forall a :: a in s.threads[t].acc ==> a.row != x)
    && !s.rows[x].word.locked
  }

  function Read(s: State, t: nat, x: nat, write: bool): State
    requires t < |s.threads| && x < |s.rows| && s.threads[t].Running?
  {
    SetThread(s, t, Running(s.threads[t].acc + [CopyOf(s.rows[x], x, write)]))
  }

  lemma {:induction false} CopiesAll(s: State, t: nat)
    requires t < |s.threads| && s.threads[t].Copying? && s.threads[t].row < |s.rows|
    requires s.threads[t].buf <= s.rows[s.threads[t].row].data
    ensures Alone(s, SetThread(s, t, s.threads[t].(buf := s.rows[s.threads[t].row].data)), t)
    decreases |s.rows[s.threads[t].row].data| - |s.threads[t].buf|
  {
    hide Alone;
    var th := s.threads[t];
    var data := s.rows[th.row].data;
    var e := SetThread(s, t, th.(buf := data));
    if |th.buf| == |data| {
      assert th.buf == data && th.(buf := data) == th;
      assert s.threads[t := th] == s.threads;
      Stay(s, t);
    } else {
      var s' := SetThread(s, t, Copying(th.acc, th.row, th.write, th.seenWord, th.buf + [data[|th.buf|]]));
      assert CopyCell(s, s', t);
      Once(s, s', t);
      CopiesAll(s', t);
      assert e.threads == s'.threads[t := e.threads[t]];
      Then(s, s', e, t);
    }
  }

  /** Any row that is not locked can be read. */
  lemma Reading(s: State, t: nat, x: nat, write: bool)
    requires CanRead(s, t, x)
    ensures Alone(s, Read(s, t, x, write), t)
  {
    hide Alone;
    var acc, r := s.threads[t].acc, s.rows[x];
    var a := SetThread(s, t, Copying(acc, x, write, r.word, []));
    var b := SetThread(s, t, Copying(acc, x, write, r.word, r.data));
    var e := Read(s, t, x, write);
    assert BeginRead(s, a, t, x, write);
    Once(s, a, t);
    CopiesAll(a, t);
    assert b.threads == a.threads[t := b.threads[t]] && e.threads == b.threads[t := e.threads[t]];
    assert EndRead(b, e, t);
    Once(b, e, t);
    Then(s, a, b, t);
    Then(s, b, e, t);
  }

  // ---------------------------------------------------------------- locking the write set

  ghost predicate Within(acc: seq<Access<nat>>, n: nat) { forall i :: 0 <= i < |acc| ==> acc[i].row < n }

  /** No row is locked, and all still are the versions that were read. */
  ghost predicate Unchanged(rows: seq<Row>, acc: seq<Access<nat>>)
    requires Within(acc, |rows|)
  {
    forall i :: 0 <= i < |acc| ==>
      !rows[acc[i].row].word.locked && rows[acc[i].row].word.tid == acc[i].ver && |rows[acc[i].row].data| == |acc[i].data|
  }

  function Locked(r: Row, t: nat, i: nat): Row { r.(word := r.word.(locked := true), owner := Held(t, i)) }

  /** The rows when the first `n` positions of the write set are locked. */
  function LockedRows(rows: seq<Row>, t: nat, ws: seq<Access<nat>>, n: nat): (r: seq<Row>)
    requires Within(ws, |rows|) && n <= |ws|
    ensures |r| == |rows|
  {
    if n == 0 then rows
    else var before := LockedRows(rows, t, ws, n - 1); before[ws[n - 1].row := Locked(before[ws[n - 1].row], t, n - 1)]
  }

  lemma {:induction false} LockedAt(rows: seq<Row>, t: nat, ws: seq<Access<nat>>, n: nat, x: nat)
    requires Within(ws, |rows|) && n <= |ws| && x < |rows|
    ensures LockedRows(rows, t, ws, n)[x] == rows[x] || exists i :: 0 <= i < n && ws[i].row == x && LockedRows(rows, t, ws, n)[x] == Locked(rows[x], t, i)
    ensures (forall i :: 0 <= i < n ==> ws[i].row != x) ==> LockedRows(rows, t, ws, n)[x] == rows[x]
    ensures forall i :: Distinct(ws) && 0 <= i < n && ws[i].row == x ==> LockedRows(rows, t, ws, n)[x] == Locked(rows[x], t, i)
  {
    if n > 0 { LockedAt(rows, t, ws, n - 1, x); }
  }

  lemma {:induction false} Locks(s: State, t: nat, job: Job, n: nat)
    requires t < |s.threads| && s.threads[t] == Locking(job, 0) && Within(job.ws, |s.rows|) && n <= |job.ws|
    requires Distinct(job.ws) && Unchanged(s.rows, job.ws)
    ensures Alone(s, SetThread(s, t, Locking(job, n)).(rows := LockedRows(s.rows, t, job.ws, n)), t)
  {
    hide Alone, LockedRows;
    var e := SetThread(s, t, Locking(job, n)).(rows := LockedRows(s.rows, t, job.ws, n));
    if n == 0 {
      NoneLocked(s.rows, t, job.ws);
      assert e == s;
      Stay(s, t);
    } else {
      var b := SetThread(s, t, Locking(job, n - 1)).(rows := LockedRows(s.rows, t, job.ws, n - 1));
      Locks(s, t, job, n - 1);
      LockNext(s.rows, t, job.ws, n);
      LockedAt(s.rows, t, job.ws, n - 1, job.ws[n - 1].row);
      assert e.threads == b.threads[t := e.threads[t]];
      assert Lock(b, e, t);
      Once(b, e, t);
      Then(s, b, e, t);
    }
  }

  lemma NoneLocked(rows: seq<Row>, t: nat, ws: seq<Access<nat>>)
    requires Within(ws, |rows|)
    ensures LockedRows(rows, t, ws, 0) == rows
  {
  }

  lemma LockNext(rows: seq<Row>, t: nat, ws: seq<Access<nat>>, n: nat)
    requires Within(ws, |rows|) && 0 < n <= |ws|
    ensures var before := LockedRows(rows, t, ws, n - 1);
            LockedRows(rows, t, ws, n) == before[ws[n - 1].row := Locked(before[ws[n - 1].row], t, n - 1)]
  {
  }

  // ---------------------------------------------------------------- the checks

  /** The largest tid among the first `n` accesses and `m`. */
  function MaxTid(acc: seq<Access<nat>>, m: nat, n: nat): (c: nat)
    requires n <= |acc|
    ensures c >= m && forall i :: 0 <= i < n ==> c >= acc[i].ver
    ensures c == m || exists i :: 0 <= i < n && c == acc[i].ver
  {
    if n == 0 then m else Max(MaxTid(acc, m, n - 1), acc[n - 1].ver)
  }

  lemma NoneMet(acc: seq<Access<nat>>, m: nat)
    ensures MaxTid(acc, m, 0) == m
  {
  }

  lemma OneMet(acc: seq<Access<nat>>, m: nat, n: nat)
    requires 0 < n <= |acc|
    ensures MaxTid(acc, m, n) == Max(MaxTid(acc, m, n - 1), acc[n - 1].ver)
  {
  }

  lemma ChecksReadsOne(s: State, t: nat, job: Job, n: nat, c: nat)
    requires t < |s.threads| && s.threads[t] == CheckingReads(job, n) && n < |job.rs| && job.rs[n].row < |s.rows|
    requires s.rows[job.rs[n].row].word.tid == job.rs[n].ver && !s.rows[job.rs[n].row].word.locked && c == Max(job.maxTid, job.rs[n].ver)
    ensures Alone(s, SetThread(s, t, CheckingReads(Job(job.ws, job.rs, job.point, c), n + 1)), t)
  {
    hide Alone;
    assert CheckRead(s, SetThread(s, t, CheckingReads(Job(job.ws, job.rs, job.point, c), n + 1)), t);
    Once(s, SetThread(s, t, CheckingReads(Job(job.ws, job.rs, job.point, c), n + 1)), t);
  }

  lemma {:induction false} ChecksReads(s: State, t: nat, job: Job, n: nat)
    requires t < |s.threads| && s.threads[t] == CheckingReads(job, 0) && Within(job.rs, |s.rows|) && n <= |job.rs|
    requires forall i :: 0 <= i < |job.rs| ==> !s.rows[job.rs[i].row].word.locked && s.rows[job.rs[i].row].word.tid == job.rs[i].ver
    ensures Alone(s, SetThread(s, t, CheckingReads(Job(job.ws, job.rs, job.point, MaxTid(job.rs, job.maxTid, n)), n)), t)
  {
    hide Alone, MaxTid, Max;
    if n == 0 {
      NoneMet(job.rs, job.maxTid);
      assert SetThread(s, t, CheckingReads(job, 0)) == s;
      Stay(s, t);
    } else {
      OneMet(job.rs, job.maxTid, n);
      var before, after := MaxTid(job.rs, job.maxTid, n - 1), MaxTid(job.rs, job.maxTid, n);
      var b := SetThread(s, t, CheckingReads(Job(job.ws, job.rs, job.point, before), n - 1));
      var e := SetThread(s, t, CheckingReads(Job(job.ws, job.rs, job.point, after), n));
      ChecksReads(s, t, job, n - 1);
      ChecksReadsOne(b, t, Job(job.ws, job.rs, job.point, before), n - 1, after);
      assert e.threads == b.threads[t := e.threads[t]];
      Then(s, b, e, t);
    }
  }

  lemma ChecksWritesOne(s: State, t: nat, job: Job, n: nat, c: nat)
    requires t < |s.threads| && s.threads[t] == CheckingWrites(job, n) && n < |job.ws| && job.ws[n].row < |s.rows|
    requires s.rows[job.ws[n].row].word.tid == job.ws[n].ver && c == Max(job.maxTid, job.ws[n].ver)
    ensures Alone(s, SetThread(s, t, CheckingWrites(Job(job.ws, job.rs, job.point, c), n + 1)), t)
  {
    hide Alone;
    assert CheckWrite(s, SetThread(s, t, CheckingWrites(Job(job.ws, job.rs, job.point, c), n + 1)), t);
    Once(s, SetThread(s, t, CheckingWrites(Job(job.ws, job.rs, job.point, c), n + 1)), t);
  }

  lemma {:induction false} ChecksWrites(s: State, t: nat, job: Job, n: nat)
    requires t < |s.threads| && s.threads[t] == CheckingWrites(job, 0) && Within(job.ws, |s.rows|) && n <= |job.ws|
    requires forall i :: 0 <= i < |job.ws| ==> s.rows[job.ws[i].row].word.tid == job.ws[i].ver
    ensures Alone(s, SetThread(s, t, CheckingWrites(Job(job.ws, job.rs, job.point, MaxTid(job.ws, job.maxTid, n)), n)), t)
  {
    hide Alone, MaxTid, Max;
    if n == 0 {
      NoneMet(job.ws, job.maxTid);
      assert SetThread(s, t, CheckingWrites(job, 0)) == s;
      Stay(s, t);
    } else {
      OneMet(job.ws, job.maxTid, n);
      var before, after := MaxTid(job.ws, job.maxTid, n - 1), MaxTid(job.ws, job.maxTid, n);
      var b := SetThread(s, t, CheckingWrites(Job(job.ws, job.rs, job.point, before), n - 1));
      var e := SetThread(s, t, CheckingWrites(Job(job.ws, job.rs, job.point, after), n));
      ChecksWrites(s, t, job, n - 1);
      ChecksWritesOne(b, t, Job(job.ws, job.rs, job.point, before), n - 1, after);
      assert e.threads == b.threads[t := e.threads[t]];
      Then(s, b, e, t);
    }
  }

  // ---------------------------------------------------------------- writing

  function Written(r: Row, tid: nat, v: Val): Row { Row(Word(false, tid), v, r.hist, Free, Clean, 0) }

  function WrittenRows(rows: seq<Row>, ws: seq<Access<nat>>, tid: nat, n: nat): (r: seq<Row>)
    requires Within(ws, |rows|) && n <= |ws|
    ensures |r| == |rows|
  {
    if n == 0 then rows
    else var before := WrittenRows(rows, ws, tid, n - 1); before[ws[n - 1].row := Written(before[ws[n - 1].row], tid, ws[n - 1].data)]
  }

  lemma {:induction false} WrittenAt(rows: seq<Row>, ws: seq<Access<nat>>, tid: nat, n: nat, x: nat)
    requires Within(ws, |rows|) && n <= |ws| && x < |rows| && Distinct(ws)
    ensures (forall i :: 0 <= i < n ==> ws[i].row != x) ==> WrittenRows(rows, ws, tid, n)[x] == rows[x]
    ensures forall i :: 0 <= i < n && ws[i].row == x ==> WrittenRows(rows, ws, tid, n)[x] == Written(rows[x], tid, ws[i].data)
  {
    if n > 0 { WrittenAt(rows, ws, tid, n - 1, x); }
  }

  /** The row while its cells are copied; a row without cells stays as it is. */
  function Filled(r: Row, v: Val, k: nat): Row {
    if k == |v| then r else r.(data := v, stage := Writing)
  }

  lemma {:induction false} InstallsCells(s: State, t: nat)
    requires t < |s.threads| && s.threads[t].Installing? && s.threads[t].i < |s.threads[t].job.ws|
    requires var th := s.threads[t]; var a := th.job.ws[th.i];
             a.row < |s.rows| && th.k <= |s.rows[a.row].data| == |a.data| && s.rows[a.row].data[..th.k] == a.data[..th.k]
    ensures var th := s.threads[t]; var a := th.job.ws[th.i];
            Alone(s, SetBoth(s, t, Installing(th.job, th.i, |a.data|, th.tid), a.row, Filled(s.rows[a.row], a.data, th.k)), t)
    decreases |s.threads[t].job.ws[s.threads[t].i].data| - s.threads[t].k
  {
    hide Alone;
    var th := s.threads[t];
    var a := th.job.ws[th.i];
    var r := s.rows[a.row];
    var e := SetBoth(s, t, Installing(th.job, th.i, |a.data|, th.tid), a.row, Filled(r, a.data, th.k));
    if th.k == |a.data| {
      assert s.rows[a.row := r] == s.rows && s.threads[t := th] == s.threads;
      Stay(s, t);
    } else {
      var r' := r.(data := r.data[th.k := a.data[th.k]], stage := Writing);
      var s' := SetBoth(s, t, Installing(th.job, th.i, th.k + 1, th.tid), a.row, r');
      assert InstallCell(s, s', t);
      Once(s, s', t);
      assert r'.data[..th.k + 1] == r.data[..th.k] + [a.data[th.k]] && a.data[..th.k + 1] == a.data[..th.k] + [a.data[th.k]];
      InstallsCells(s', t);
      if th.k + 1 == |a.data| { assert r'.data[..th.k + 1] == r'.data && a.data[..th.k + 1] == a.data; }
      assert e.threads == s'.threads[t := e.threads[t]];
      assert e.rows == s'.rows[a.row := Filled(r', a.data, th.k + 1)];
      Then(s, s', e, t);
    }
  }

  lemma InstallsOne(s: State, t: nat, job: Job, i: nat, tid: nat)
    requires t < |s.threads| && s.threads[t] == Installing(job, i, 0, tid) && i < |job.ws| && job.ws[i].row < |s.rows|
    requires |s.rows[job.ws[i].row].data| == |job.ws[i].data| && s.rows[job.ws[i].row].word.locked
    ensures var x := job.ws[i].row;
            Alone(s, SetBoth(s, t, Installing(job, i + 1, 0, tid), x, Written(s.rows[x], tid, job.ws[i].data)), t)
  {
    hide Alone;
    var a := job.ws[i];
    var x, r := a.row, s.rows[a.row];
    var full := Filled(r, a.data, 0);
    assert full.data == a.data;
    var b := SetBoth(s, t, Installing(job, i, |a.data|, tid), x, full);
    var c := SetBoth(s, t, Unlocking(job, i, tid), x, full.(word := Word(true, tid), stage := Clean));
    var e := SetBoth(s, t, Installing(job, i + 1, 0, tid), x, Written(r, tid, a.data));
    InstallsCells(s, t);
    assert c.threads == b.threads[t := c.threads[t]] && c.rows == b.rows[x := c.rows[x]];
    assert e.threads == c.threads[t := e.threads[t]] && e.rows == c.rows[x := e.rows[x]];
    assert StoreTid(b, c, t);
    assert UnlockWritten(c, e, t);
    Once(b, c, t);
    Once(c, e, t);
    Then(s, b, c, t);
    Then(s, c, e, t);
  }

  lemma {:induction false} Installs(s: State, t: nat, job: Job, tid: nat, n: nat)
    requires t < |s.threads| && s.threads[t] == Installing(job, 0, 0, tid) && Within(job.ws, |s.rows|) && n <= |job.ws| && Distinct(job.ws)
    requires forall i :: 0 <= i < |job.ws| ==> |s.rows[job.ws[i].row].data| == |job.ws[i].data| && s.rows[job.ws[i].row].word.locked
    ensures Alone(s, SetThread(s, t, Installing(job, n, 0, tid)).(rows := WrittenRows(s.rows, job.ws, tid, n)), t)
  {
    hide Alone, Written;
    var e := SetThread(s, t, Installing(job, n, 0, tid)).(rows := WrittenRows(s.rows, job.ws, tid, n));
    if n == 0 {
      assert e == s;
      Stay(s, t);
    } else {
      var b := SetThread(s, t, Installing(job, n - 1, 0, tid)).(rows := WrittenRows(s.rows, job.ws, tid, n - 1));
      Installs(s, t, job, tid, n - 1);
      WrittenAt(s.rows, job.ws, tid, n - 1, job.ws[n - 1].row);
      InstallsOne(b, t, job, n - 1, tid);
      assert e.threads == b.threads[t := e.threads[t]];
      Then(s, b, e, t);
    }
  }

  // ---------------------------------------------------------------- the whole commit

  function ClaimedRows(rows: seq<Row>, ws: seq<Access<nat>>, clock: nat): (r: seq<Row>)
    ensures |r| == |rows|
  {
    seq(|rows|, x requires 0 <= x < |rows| => if x in Writes(ws) then rows[x].(claim := clock) else rows[x])
  }

  function CommittedRows(rows: seq<Row>, txn: Txn): (r: seq<Row>)
    ensures |r| == |rows|
  {
    seq(|rows|, x requires 0 <= x < |rows| =>
      if x in txn.written
      then rows[x].(hist := rows[x].hist + [Version(txn.ts, txn.written[x])], stage := Pending, claim := 0)
      else rows[x])
  }

  /** A thread that has read rows that nobody has locked or changed since. */
  ghost predicate Ready(s: State, t: nat) {
    && t < |s.threads| == |s.curTid| && s.threads[t].Running? && Distinct(s.threads[t].acc)
    && Within(s.threads[t].acc, |s.rows|) && Unchanged(s.rows, s.threads[t].acc)
  }

  lemma {:induction false} FilterReady(rows: seq<Row>, acc: seq<Access<nat>>, w: bool)
    requires Distinct(acc) && Within(acc, |rows|) && Unchanged(rows, acc)
    ensures var f := Filter(acc, w); Distinct(f) && Within(f, |rows|) && Unchanged(rows, f)
  {
    FilterDistinct(acc, w);
    var f := Filter(acc, w);
    forall i | 0 <= i < |f| ensures exists k :: 0 <= k < |acc| && acc[k] == f[i] { var k := FilterFrom(acc, w, i); }
  }

  /** The write set is locked, and that is the lock point. */
  lemma Prepares(s: State, t: nat) returns (e: State, job: Job)
    requires t < |s.threads| && s.threads[t].Running? && Within(Filter(s.threads[t].acc, true), |s.rows|)
    requires Distinct(Filter(s.threads[t].acc, true)) && Unchanged(s.rows, Filter(s.threads[t].acc, true))
    ensures var acc := s.threads[t].acc;
      && job == Job(Filter(acc, true), Filter(acc, false), s.clock, 0)
      && e == s.(rows := ClaimedRows(LockedRows(s.rows, t, job.ws, |job.ws|), job.ws, s.clock),
                 threads := s.threads[t := CheckingReads(job, 0)], clock := s.clock + 1)
    ensures Alone(s, e, t)
  {
    hide Alone, LockedRows, Filter, Writes;
    var acc := s.threads[t].acc;
    var start := Job(Filter(acc, true), Filter(acc, false), 0, 0);
    job := start.(point := s.clock);
    var rows := LockedRows(s.rows, t, start.ws, |start.ws|);
    var a := SetThread(s, t, Locking(start, 0));
    var b := SetThread(a, t, Locking(start, |start.ws|)).(rows := rows);
    e := s.(rows := ClaimedRows(rows, job.ws, s.clock), threads := s.threads[t := CheckingReads(job, 0)], clock := s.clock + 1);
    assert Validate(s, a, t);
    Once(s, a, t);
    Locks(a, t, start, |start.ws|);
    assert e.threads == b.threads[t := e.threads[t]];
    assert AllLocked(b, e, t);
    Once(b, e, t);
    Then(s, a, b, t);
    Then(s, b, e, t);
  }

  /** The sets are checked. */
  lemma Checks(s: State, t: nat, job: Job) returns (e: State, job': Job)
    requires t < |s.threads| && s.threads[t] == CheckingReads(job, 0) && Within(job.ws, |s.rows|) && Within(job.rs, |s.rows|)
    requires forall i :: 0 <= i < |job.rs| ==> !s.rows[job.rs[i].row].word.locked && s.rows[job.rs[i].row].word.tid == job.rs[i].ver
    requires forall i :: 0 <= i < |job.ws| ==> s.rows[job.ws[i].row].word.tid == job.ws[i].ver
    ensures job' == Job(job.ws, job.rs, job.point, MaxTid(job.ws, MaxTid(job.rs, job.maxTid, |job.rs|), |job.ws|))
    ensures e == SetThread(s, t, CheckingWrites(job', |job.ws|)) && Alone(s, e, t)
  {
    hide Alone, MaxTid;
    var half := Job(job.ws, job.rs, job.point, MaxTid(job.rs, job.maxTid, |job.rs|));
    var a := SetThread(s, t, CheckingReads(half, |job.rs|));
    var b := SetThread(s, t, CheckingWrites(half, 0));
    job' := Job(job.ws, job.rs, job.point, MaxTid(job.ws, half.maxTid, |job.ws|));
    e := SetThread(s, t, CheckingWrites(job', |job.ws|));
    ChecksReads(s, t, job, |job.rs|);
    assert b.threads == a.threads[t := b.threads[t]] && e.threads == b.threads[t := e.threads[t]];
    assert ReadsChecked(a, b, t);
    Once(a, b, t);
    ChecksWrites(b, t, half, |job.ws|);
    Then(s, a, b, t);
    Then(s, b, e, t);
  }

  /** The transaction commits and its rows are written. */
  lemma Finishes(s: State, t: nat, job: Job) returns (e: State)
    requires t < |s.threads| == |s.curTid| && s.threads[t] == CheckingWrites(job, |job.ws|) && Within(job.ws, |s.rows|) && Distinct(job.ws)
    requires forall i :: 0 <= i < |job.ws| ==> |s.rows[job.ws[i].row].data| == |job.ws[i].data| && s.rows[job.ws[i].row].word.locked
    ensures var tid := NextTid(job.maxTid, s.curTid[t]);
            e == State(WrittenRows(CommittedRows(s.rows, TxnOf(job)), job.ws, tid, |job.ws|),
                       s.threads[t := Running([])], s.curTid[t := tid], s.clock, Insert(s.order, TxnOf(job)), s.log + [TxnOf(job)])
    ensures Alone(s, e, t)
  {
    hide Alone, Insert, Reads, Writes, WrittenRows;
    var txn := TxnOf(job);
    var tid := NextTid(job.maxTid, s.curTid[t]);
    var rows := CommittedRows(s.rows, txn);
    var b := State(rows, s.threads[t := Installing(job, 0, 0, tid)], s.curTid[t := tid], s.clock, Insert(s.order, txn), s.log + [txn]);
    var c := SetThread(b, t, Installing(job, |job.ws|, 0, tid)).(rows := WrittenRows(rows, job.ws, tid, |job.ws|));
    e := SetThread(c, t, Running([]));
    assert Commit(s, b, t);
    Once(s, b, t);
    Installs(b, t, job, tid, |job.ws|);
    assert Finish(c, e, t);
    Once(c, e, t);
    Then(s, b, c, t);
    Then(s, c, e, t);
    assert e.threads == s.threads[t := Running([])];
  }

  /** The rows when the transaction is done. */
  function DoneRows(rows: seq<Row>, t: nat, job: Job, tid: nat): (r: seq<Row>)
    requires Within(job.ws, |rows|)
    ensures |r| == |rows|
  {
    WrittenRows(CommittedRows(ClaimedRows(LockedRows(rows, t, job.ws, |job.ws|), job.ws, job.point), TxnOf(job)), job.ws, tid, |job.ws|)
  }

  /** What the access has become of its row, when the transaction is done. */
  ghost predicate Settled(before: Row, after: Row, a: Access<nat>, point: nat, tid: nat) {
    if a.write then after == Row(Word(false, tid), a.data, before.hist + [Version(point, a.data)], Free, Clean, 0)
    else after == before
  }

  lemma SettledRow(rows: seq<Row>, t: nat, acc: seq<Access<nat>>, job: Job, tid: nat, k: nat)
    requires Distinct(acc) && Within(acc, |rows|) && job.ws == Filter(acc, true) && Within(job.ws, |rows|) && k < |acc|
    ensures Settled(rows[acc[k].row], DoneRows(rows, t, job, tid)[acc[k].row], acc[k], job.point, tid)
  {
    hide Filter, Reads, LockedRows, WrittenRows, Writes;
    var x := acc[k].row;
    FilterDistinct(acc, true);
    LockedAt(rows, t, job.ws, |job.ws|, x);
    WrittenAt(CommittedRows(ClaimedRows(LockedRows(rows, t, job.ws, |job.ws|), job.ws, job.point), TxnOf(job)), job.ws, tid, |job.ws|, x);
    if acc[k].write {
      var i := InFilter(acc, k);
      WrittenIs(job.ws, i);
    } else {
      NotWritten(acc, x);
    }
  }

  /** A row that no access writes is not in the write set. */
  lemma NotWritten(acc: seq<Access<nat>>, x: nat)
    requires Distinct(acc) && forall k :: 0 <= k < |acc| && acc[k].row == x ==> !acc[k].write
    ensures x !in Writes(Filter(acc, true)) && forall i :: 0 <= i < |Filter(acc, true)| ==> Filter(acc, true)[i].row != x
  {
    hide Filter, Writes;
    var ws := Filter(acc, true);
    forall i | 0 <= i < |ws| ensures ws[i].row != x { var k := FilterFrom(acc, true, i); }
    if x in Writes(ws) { var i := WriteSlot(ws, x); }
  }

  lemma UntouchedRow(rows: seq<Row>, t: nat, acc: seq<Access<nat>>, job: Job, tid: nat, x: nat)
    requires Distinct(acc) && job.ws == Filter(acc, true) && Within(job.ws, |rows|) && x < |rows|
    requires forall k :: 0 <= k < |acc| ==> acc[k].row != x
    ensures DoneRows(rows, t, job, tid)[x] == rows[x]
  {
    hide Filter, Reads, LockedRows, WrittenRows, Writes;
    FilterDistinct(acc, true);
    NotWritten(acc, x);
    LockedAt(rows, t, job.ws, |job.ws|, x);
    WrittenAt(CommittedRows(ClaimedRows(LockedRows(rows, t, job.ws, |job.ws|), job.ws, job.point), TxnOf(job)), job.ws, tid, |job.ws|, x);
  }

  /** The checks succeed when nobody else has come in between. */
  lemma CheckableAlone(rows: seq<Row>, t: nat, acc: seq<Access<nat>>, clock: nat)
    requires Distinct(acc) && Within(acc, |rows|) && Unchanged(rows, acc)
    ensures var ws, rs := Filter(acc, true), Filter(acc, false);
      && Within(ws, |rows|) && Within(rs, |rows|) && Distinct(ws)
      && var claimed := ClaimedRows(LockedRows(rows, t, ws, |ws|), ws, clock);
      && (forall i :: 0 <= i < |rs| ==> !claimed[rs[i].row].word.locked && claimed[rs[i].row].word.tid == rs[i].ver)
      && (forall i :: 0 <= i < |ws| ==>
            claimed[ws[i].row].word == Word(true, ws[i].ver) && |claimed[ws[i].row].data| == |ws[i].data|)
  {
    hide Filter, LockedRows, Writes;
    var ws, rs := Filter(acc, true), Filter(acc, false);
    FilterReady(rows, acc, true);
    FilterReady(rows, acc, false);
    FilterApart(acc);
    forall i | 0 <= i < |rs| ensures LockedRows(rows, t, ws, |ws|)[rs[i].row] == rows[rs[i].row] { LockedAt(rows, t, ws, |ws|, rs[i].row); }
    forall i | 0 <= i < |ws| ensures LockedRows(rows, t, ws, |ws|)[ws[i].row] == Locked(rows[ws[i].row], t, i) { LockedAt(rows, t, ws, |ws|, ws[i].row); }
  }

  /** The tid is above every tid met and above the thread's last one, and no smaller one is. */
  ghost predicate Least(acc: seq<Access<nat>>, cur: nat, tid: nat) {
    && tid > cur && (forall i :: 0 <= i < |acc| ==> tid > acc[i].ver)
    && (tid == cur + 1 || exists i :: 0 <= i < |acc| && tid == acc[i].ver + 1)
  }

  lemma TidIsLeast(acc: seq<Access<nat>>, cur: nat)
    ensures var ws, rs := Filter(acc, true), Filter(acc, false);
            Least(acc, cur, NextTid(MaxTid(ws, MaxTid(rs, 0, |rs|), |ws|), cur))
  {
    hide Filter, MaxTid;
    var ws, rs := Filter(acc, true), Filter(acc, false);
    var low := MaxTid(rs, 0, |rs|);
    var m := MaxTid(ws, low, |ws|);
    forall i | 0 <= i < |acc| ensures m >= acc[i].ver { var k := InFilter(acc, i); }
    if m > cur {
      if m != low {
        var k :| 0 <= k < |ws| && m == ws[k].ver;
        var i := FilterFrom(acc, true, k);
      } else {
        var k :| 0 <= k < |rs| && m == rs[k].ver;
        var i := FilterFrom(acc, false, k);
      }
    }
  }

  /** A transaction whose rows nobody has locked or changed since it read them commits when it runs
      alone, however many rows it reads and writes, at the present lock point and with the least
      tid its accesses allow: its commit is logged, its rows hold what it has set, no other row or
      thread has changed, and it is ready for the next transaction. */
  lemma CommitsAlone(s: State, t: nat) returns (e: State)
    requires Ready(s, t)
    ensures Alone(s, e, t) && e.threads == s.threads[t := Running([])]
    ensures |e.log| == |s.log| + 1 && e.log[..|s.log|] == s.log && e.log[|s.log|].ts == s.clock
    ensures var acc := s.threads[t].acc;
      && |e.curTid| == |s.curTid| && Least(acc, s.curTid[t], e.curTid[t]) && |e.rows| == |s.rows|
      && (forall i :: 0 <= i < |acc| ==> Settled(s.rows[acc[i].row], e.rows[acc[i].row], acc[i], s.clock, e.curTid[t]))
      && (forall x :: 0 <= x < |s.rows| && (forall i :: 0 <= i < |acc| ==> acc[i].row != x) ==> e.rows[x] == s.rows[x])
    ensures e.log[|s.log|].seen == Reads(s.threads[t].acc) && e.log[|s.log|].written == Writes(Filter(s.threads[t].acc, true))
    ensures e.order == Insert(s.order, e.log[|s.log|])
  {
    hide Alone, LockedRows, WrittenRows, ClaimedRows, MaxTid, NextTid, Filter, Reads, Writes, Insert, Settled, Least, Unchanged;
    var acc := s.threads[t].acc;
    FilterReady(s.rows, acc, true);
    CheckableAlone(s.rows, t, acc, s.clock);
    var a, start := Prepares(s, t);
    var b, job := Checks(a, t, start);
    e := Finishes(b, t, job);
    Then(s, a, b, t);
    Then(s, b, e, t);
    assert e.threads == s.threads[t := Running([])] && e.rows == DoneRows(s.rows, t, job, e.curTid[t]);
    TidIsLeast(acc, s.curTid[t]);
    SetsReport(acc);
    forall i | 0 <= i < |acc| ensures Settled(s.rows[acc[i].row], e.rows[acc[i].row], acc[i], s.clock, e.curTid[t]) {
      SettledRow(s.rows, t, acc, job, e.curTid[t], i);
    }
    forall x | 0 <= x < |s.rows| && (forall i :: 0 <= i < |acc| ==> acc[i].row != x) ensures e.rows[x] == s.rows[x] {
      UntouchedRow(s.rows, t, acc, job, e.curTid[t], x);
    }
  }
}
