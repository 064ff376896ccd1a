/** What a TicToc transaction achieves when nobody gets in its way: it reads what it likes, and it
    commits, at the least timestamp its accesses allow. */
module TicTocAlone {
  import opened Serial
  import opened Versions
  import opened AccessList
  import opened TicTocWord
  import opened TicToc

  /** Steps of one thread lead from `s` to `e`. */
  ghost predicate Alone(s: State, e: State, t: nat) {
    exists run: seq<State> :: run != [] && run[0] == s && run[|run| - 1] == e && ByThread(run, t)
  }

  ghost predicate ByThread(run: seq<State>, t: nat) {
    forall i :: 0 <= i < |run| - 1 ==> Step(run[i], run[i + 1], t)
  }

  lemma Stay(s: State, t: nat)
    ensures Alone(s, s, t)
  {
    assert ByThread([s], t);
  }

  lemma Once(s: State, e: State, t: nat)
    requires Step(s, e, t)
    ensures Alone(s, e, t)
  {
    hide Step;
    assert ByThread([s, e], t);
  }

  lemma Then(a: State, b: State, c: State, t: nat)
    requires Alone(a, b, t) && Alone(b, c, t)
    ensures Alone(a, c, t)
  {
    hide Step;
    var p: seq<State> :| p != [] && p[0] == a && p[|p| - 1] == b && ByThread(p, t);
    var q: seq<State> :| q != [] && q[0] == b && q[|q| - 1] == c && ByThread(q, t);
    var run := p + q[1..];
    forall i | 0 <= i < |run| - 1 ensures Step(run[i], run[i + 1], t) {
      if i < |p| - 1 {
        assert Step(p[i], p[i + 1], t);
      } else {
        assert Step(q[i - |p| + 1], q[i - |p| + 2], t);
        assert run[i] == q[i - |p| + 1] && run[i + 1] == q[i - |p| + 2];
      }
    }
    assert ByThread(run, t);
  }

  // ---------------------------------------------------------------- reading a row

  /** A copy of the row as it is. */
  function CopyOf(r: Row, x: nat, write: bool): Access<Lease> {
    Access(write, x, Lease(r.word.wts, r.word.Rts()), r.data, r.data)
  }

  ghost predicate CanRead(s: State, t: nat, x: nat) {
    && t < |s.threads| && x < |s.rows| && s.threads[t].Running?
    && (forall a :: a in s.threads[t].acc ==> a.row != x)
    && !s.rows[x].word.locked
  }

  function Read(s: State, t: nat, x: nat, write: bool): State
    requires t < |s.threads| && x < |s.rows| && s.threads[t].Running?
  {
    SetThread(s, t, Running(s.threads[t].acc + [CopyOf(s.rows[x], x, write)]))
  }

  lemma {:induction false} CopiesAll(s: State, t: nat)
    requires t < |s.threads| && s.threads[t].Copying? && s.threads[t].row < |s.rows|
    requires s.threads[t].buf <= s.rows[s.threads[t].row].data
    ensures Alone(s, SetThread(s, t, s.threads[t].(buf := s.rows[s.threads[t].row].data)), t)
    decreases |s.rows[s.threads[t].row].data| - |s.threads[t].buf|
  {
    hide Alone;
    var th := s.threads[t];
    var data := s.rows[th.row].data;
    var e := SetThread(s, t, th.(buf := data));
    if |th.buf| == |data| {
      assert th.buf == data && th.(buf := data) == th;
      assert s.threads[t := th] == s.threads;
      Stay(s, t);
    } else {
      var s' := SetThread(s, t, Copying(th.acc, th.row, th.write, th.seenWord, th.buf + [data[|th.buf|]]));
      assert CopyCell(s, s', t);
      Once(s, s', t);
      CopiesAll(s', t);
      assert e.threads == s'.threads[t := e.threads[t]];
      Then(s, s', e, t);
    }
  }

  /** Any row that is not locked can be read. */
  lemma Reading(s: State, t: nat, x: nat, write: bool)
    requires CanRead(s, t, x)
    ensures Alone(s, Read(s, t, x, write), t)
  {
    hide Alone;
    var acc, r := s.threads[t].acc, s.rows[x];
    var a := SetThread(s, t, Copying(acc, x, write, r.word, []));
    var b := SetThread(s, t, Copying(acc, x, write, r.word, r.data));
    var e := Read(s, t, x, write);
    assert BeginRead(s, a, t, x, write);
    Once(s, a, t);
    CopiesAll(a, t);
    assert b.threads == a.threads[t := b.threads[t]] && e.threads == b.threads[t := e.threads[t]];
    assert EndRead(b, e, t);
    Once(b, e, t);
    Then(s, a, b, t);
    Then(s, b, e, t);
  }

  // ---------------------------------------------------------------- locking the write set

  ghost predicate Within(acc: seq<Access<Lease>>, n: nat) { forall i :: 0 <= i < |acc| ==> acc[i].row < n }

  /** No row is locked, and all still are the versions that were read. */
  ghost predicate Unchanged(rows: seq<Row>, acc: seq<Access<Lease>>)
    requires Within(acc, |rows|)
  {
    forall i :: 0 <= i < |acc| ==>
      !rows[acc[i].row].word.locked && rows[acc[i].row].word.wts == acc[i].ver.wts && |rows[acc[i].row].data| == |acc[i].data|
  }

  function Locked(r: Row, t: nat, i: nat): Row { r.(word := r.word.(locked := true), owner := Held(t, i)) }

  /** The rows when the first `n` positions of the write set are locked. */
  function LockedRows(rows: seq<Row>, t: nat, ws: seq<Access<Lease>>, n: nat): (r: seq<Row>)
    requires Within(ws, |rows|) && n <= |ws|
    ensures |r| == |rows|
  {
    if n == 0 then rows
    else var before := LockedRows(rows, t, ws, n - 1); before[ws[n - 1].row := Locked(before[ws[n - 1].row], t, n - 1)]
  }

  lemma {:induction false} LockedAt(rows: seq<Row>, t: nat, ws: seq<Access<Lease>>, n: nat, x: nat)
    requires Within(ws, |rows|) && n <= |ws| && x < |rows|
    ensures LockedRows(rows, t, ws, n)[x] == rows[x] || exists i :: 0 <= i < n && ws[i].row == x && LockedRows(rows, t, ws, n)[x] == Locked(rows[x], t, i)
    ensures (forall i :: 0 <= i < n ==> ws[i].row != x) ==> LockedRows(rows, t, ws, n)[x] == rows[x]
    ensures forall i :: Distinct(ws) && 0 <= i < n && ws[i].row == x ==> LockedRows(rows, t, ws, n)[x] == Locked(rows[x], t, i)
  {
    if n > 0 { LockedAt(rows, t, ws, n - 1, x); }
  }

  lemma {:induction false} Locks(s: State, t: nat, job: Job, n: nat)
    requires t < |s.threads| && s.threads[t] == Locking(job, 0) && Within(job.ws, |s.rows|) && n <= |job.ws|
    requires Distinct(job.ws) && Unchanged(s.rows, job.ws)
    ensures Alone(s, SetThread(s, t, Locking(job, n)).(rows := LockedRows(s.rows, t, job.ws, n)), t)
  {
    hide Alone, LockedRows;
    var e := SetThread(s, t, Locking(job, n)).(rows := LockedRows(s.rows, t, job.ws, n));
    if n == 0 {
      NoneLocked(s.rows, t, job.ws);
      assert e == s;
      Stay(s, t);
    } else {
      var b := SetThread(s, t, Locking(job, n - 1)).(rows := LockedRows(s.rows, t, job.ws, n - 1));
      Locks(s, t, job, n - 1);
      LockNext(s.rows, t, job.ws, n);
      LockedAt(s.rows, t, job.ws, n - 1, job.ws[n - 1].row);
      assert e.threads == b.threads[t := e.threads[t]];
      assert Lock(b, e, t);
      Once(b, e, t);
      Then(s, b, e, t);
    }
  }

  lemma NoneLocked(rows: seq<Row>, t: nat, ws: seq<Access<Lease>>)
    requires Within(ws, |rows|)
    ensures LockedRows(rows, t, ws, 0) == rows
  {
  }

  lemma LockNext(rows: seq<Row>, t: nat, ws: seq<Access<Lease>>, n: nat)
    requires Within(ws, |rows|) && 0 < n <= |ws|
    ensures var before := LockedRows(rows, t, ws, n - 1);
            LockedRows(rows, t, ws, n) == before[ws[n - 1].row := Locked(before[ws[n - 1].row], t, n - 1)]
  {
  }

  // ---------------------------------------------------------------- the commit timestamp

  function Raised(rows: seq<Row>, ws: seq<Access<Lease>>, cts: nat, n: nat): (c: nat)
    requires Within(ws, |rows|) && n <= |ws|
    ensures c >= cts && forall i :: 0 <= i < n ==> c > rows[ws[i].row].word.Rts()
    ensures c == cts || exists i :: 0 <= i < n && c == rows[ws[i].row].word.Rts() + 1
  {
    if n == 0 then cts
    else
      var c := Raised(rows, ws, cts, n - 1);
      var least := rows[ws[n - 1].row].word.Rts() + 1;
      if least > c then least else c
  }

  lemma RaisedNext(rows: seq<Row>, ws: seq<Access<Lease>>, cts: nat, n: nat)
    requires Within(ws, |rows|) && 0 < n <= |ws|
    ensures var c, least := Raised(rows, ws, cts, n - 1), rows[ws[n - 1].row].word.Rts() + 1;
            Raised(rows, ws, cts, n) == if least > c then least else c
  {
  }

  lemma RaisesOne(s: State, t: nat, job: Job, n: nat, c: nat)
    requires t < |s.threads| && s.threads[t] == Raising(job, n) && n < |job.ws| && job.ws[n].row < |s.rows|
    requires var least := s.rows[job.ws[n].row].word.Rts() + 1; c == if least > job.cts then least else job.cts
    ensures Alone(s, SetThread(s, t, Raising(Job(job.ws, job.rs, c), n + 1)), t)
  {
    hide Alone;
    assert Raise(s, SetThread(s, t, Raising(Job(job.ws, job.rs, c), n + 1)), t);
    Once(s, SetThread(s, t, Raising(Job(job.ws, job.rs, c), n + 1)), t);
  }

  lemma {:induction false} Raises(s: State, t: nat, job: Job, n: nat)
    requires t < |s.threads| && s.threads[t] == Raising(job, 0) && Within(job.ws, |s.rows|) && n <= |job.ws|
    ensures Alone(s, SetThread(s, t, Raising(Job(job.ws, job.rs, Raised(s.rows, job.ws, job.cts, n)), n)), t)
  {
    hide Alone, Raised;
    if n == 0 {
      NoneRaised(s.rows, job.ws, job.cts);
      assert SetThread(s, t, Raising(job, 0)) == s;
      Stay(s, t);
    } else {
      RaisedNext(s.rows, job.ws, job.cts, n);
      var before, after := Raised(s.rows, job.ws, job.cts, n - 1), Raised(s.rows, job.ws, job.cts, n);
      var b := SetThread(s, t, Raising(Job(job.ws, job.rs, before), n - 1));
      var e := SetThread(s, t, Raising(Job(job.ws, job.rs, after), n));
      Raises(s, t, job, n - 1);
      RaisesOne(b, t, Job(job.ws, job.rs, before), n - 1, after);
      assert e.threads == b.threads[t := e.threads[t]];
      Then(s, b, e, t);
    }
  }

  lemma NoneRaised(rows: seq<Row>, ws: seq<Access<Lease>>, cts: nat)
    requires Within(ws, |rows|)
    ensures Raised(rows, ws, cts, 0) == cts
  {
  }

  // ---------------------------------------------------------------- renewing the read set

  /** What a renewal that nobody disturbs makes of the row. */
  function Renewed(r: Row, a: Access<Lease>, cts: nat): Row {
    if a.ver.rts >= cts then r
    else match Renewal(r.word, a.ver.wts, cts)
      case Done(_) => r
      case Swap(want, _) => r.(word := want)
  }

  function RenewedRows(rows: seq<Row>, rs: seq<Access<Lease>>, cts: nat, n: nat): (r: seq<Row>)
    requires Within(rs, |rows|) && n <= |rs|
    ensures |r| == |rows|
  {
    if n == 0 then rows
    else var before := RenewedRows(rows, rs, cts, n - 1); before[rs[n - 1].row := Renewed(before[rs[n - 1].row], rs[n - 1], cts)]
  }

  lemma {:induction false} RenewedAt(rows: seq<Row>, rs: seq<Access<Lease>>, cts: nat, n: nat, x: nat)
    requires Within(rs, |rows|) && n <= |rs| && x < |rows| && Distinct(rs)
    ensures (forall i :: 0 <= i < n ==> rs[i].row != x) ==> RenewedRows(rows, rs, cts, n)[x] == rows[x]
    ensures forall i :: 0 <= i < n && rs[i].row == x ==> RenewedRows(rows, rs, cts, n)[x] == Renewed(rows[x], rs[i], cts)
  {
    hide Renewed;
    if n > 0 { RenewedAt(rows, rs, cts, n - 1, x); }
  }

  /** One renewal, in one step or two. */
  lemma RenewsOne(s: State, t: nat, job: Job, j: nat)
    requires t < |s.threads| && s.threads[t] == Renewing(job, j) && j < |job.rs| && job.rs[j].row < |s.rows|
    requires var a := job.rs[j]; !s.rows[a.row].word.locked && s.rows[a.row].word.wts == a.ver.wts <= job.cts
    ensures var x := job.rs[j].row;
            Alone(s, SetBoth(s, t, Renewing(job, j + 1), x, Renewed(s.rows[x], job.rs[j], job.cts)), t)
  {
    hide Alone, Renewal;
    var a := job.rs[j];
    var x, r := a.row, s.rows[a.row];
    var e := SetBoth(s, t, Renewing(job, j + 1), x, Renewed(r, a, job.cts));
    var p := Renewal(r.word, a.ver.wts, job.cts);
    assert s.rows[x := r] == s.rows;
    if a.ver.rts >= job.cts || p.Done? {
      assert Renew(s, e, t);
      Once(s, e, t);
    } else {
      var b := SetThread(s, t, Swapping(job, j, r.word, p.want, p.rebase));
      assert Renew(s, b, t);
      assert e.threads == b.threads[t := e.threads[t]];
      assert SwapWord(b, e, t);
      Once(s, b, t);
      Once(b, e, t);
      Then(s, b, e, t);
    }
  }

  ghost predicate Renewable(rows: seq<Row>, rs: seq<Access<Lease>>, cts: nat)
    requires Within(rs, |rows|)
  {
    forall i :: 0 <= i < |rs| ==> !rows[rs[i].row].word.locked && rows[rs[i].row].word.wts == rs[i].ver.wts <= cts
  }

  lemma {:induction false} Renews(s: State, t: nat, job: Job, n: nat)
    requires t < |s.threads| && s.threads[t] == Renewing(job, 0) && Within(job.rs, |s.rows|) && n <= |job.rs|
    requires Distinct(job.rs) && Renewable(s.rows, job.rs, job.cts)
    ensures Alone(s, SetThread(s, t, Renewing(job, n)).(rows := RenewedRows(s.rows, job.rs, job.cts, n)), t)
  {
    hide Alone, Renewed;
    var e := SetThread(s, t, Renewing(job, n)).(rows := RenewedRows(s.rows, job.rs, job.cts, n));
    if n == 0 {
      assert e == s;
      Stay(s, t);
    } else {
      var b := SetThread(s, t, Renewing(job, n - 1)).(rows := RenewedRows(s.rows, job.rs, job.cts, n - 1));
      Renews(s, t, job, n - 1);
      RenewedAt(s.rows, job.rs, job.cts, n - 1, job.rs[n - 1].row);
      RenewsOne(b, t, job, n - 1);
      assert e.threads == b.threads[t := e.threads[t]];
      Then(s, b, e, t);
    }
  }

  // ---------------------------------------------------------------- installing the write set

  function Written(r: Row, cts: nat, v: Val): Row { Row(Word(false, cts, 0), v, r.hist, Free, Clean) }

  function WrittenRows(rows: seq<Row>, ws: seq<Access<Lease>>, cts: nat, n: nat): (r: seq<Row>)
    requires Within(ws, |rows|) && n <= |ws|
    ensures |r| == |rows|
  {
    if n == 0 then rows
    else var before := WrittenRows(rows, ws, cts, n - 1); before[ws[n - 1].row := Written(before[ws[n - 1].row], cts, ws[n - 1].data)]
  }

  lemma {:induction false} WrittenAt(rows: seq<Row>, ws: seq<Access<Lease>>, cts: nat, n: nat, x: nat)
    requires Within(ws, |rows|) && n <= |ws| && x < |rows| && Distinct(ws)
    ensures (forall i :: 0 <= i < n ==> ws[i].row != x) ==> WrittenRows(rows, ws, cts, n)[x] == rows[x]
    ensures forall i :: 0 <= i < n && ws[i].row == x ==> WrittenRows(rows, ws, cts, n)[x] == Written(rows[x], cts, ws[i].data)
  {
    if n > 0 { WrittenAt(rows, ws, cts, n - 1, x); }
  }

  lemma {:induction false} InstallsCells(s: State, t: nat)
    requires t < |s.threads| && s.threads[t].Installing? && s.threads[t].i < |s.threads[t].job.ws|
    requires var th := s.threads[t]; var a := th.job.ws[th.i];
             a.row < |s.rows| && th.k <= |s.rows[a.row].data| == |a.data| && s.rows[a.row].data[..th.k] == a.data[..th.k]
    ensures var th := s.threads[t]; var a := th.job.ws[th.i];
            Alone(s, SetBoth(s, t, Installing(th.job, th.i, |a.data|), a.row, s.rows[a.row].(data := a.data)), t)
    decreases |s.threads[t].job.ws[s.threads[t].i].data| - s.threads[t].k
  {
    hide Alone;
    var th := s.threads[t];
    var a := th.job.ws[th.i];
    var r := s.rows[a.row];
    var e := SetBoth(s, t, Installing(th.job, th.i, |a.data|), a.row, r.(data := a.data));
    if th.k == |a.data| {
      assert r.data[..th.k] == r.data && a.data[..th.k] == a.data;
      assert r.(data := a.data) == r && s.rows[a.row := r] == s.rows && s.threads[t := th] == s.threads;
      Stay(s, t);
    } else {
      var r' := r.(data := r.data[th.k := a.data[th.k]]);
      var s' := SetBoth(s, t, Installing(th.job, th.i, th.k + 1), a.row, r');
      assert InstallCell(s, s', t);
      Once(s, s', t);
      assert r'.data[..th.k + 1] == r.data[..th.k] + [a.data[th.k]] && a.data[..th.k + 1] == a.data[..th.k] + [a.data[th.k]];
      InstallsCells(s', t);
      assert e.threads == s'.threads[t := e.threads[t]] && e.rows == s'.rows[a.row := e.rows[a.row]];
      Then(s, s', e, t);
    }
  }

  lemma InstallsOne(s: State, t: nat, job: Job, i: nat)
    requires t < |s.threads| && s.threads[t] == Storing(job, i) && i < |job.ws| && job.ws[i].row < |s.rows|
    requires |s.rows[job.ws[i].row].data| == |job.ws[i].data|
    ensures var x := job.ws[i].row;
            Alone(s, SetBoth(s, t, Storing(job, i + 1), x, Written(s.rows[x], job.cts, job.ws[i].data)), t)
  {
    hide Alone;
    var a := job.ws[i];
    var x, r := a.row, s.rows[a.row];
    var stored := r.(word := Word(r.word.locked, job.cts, 0), stage := Stored);
    var b := SetBoth(s, t, Installing(job, i, 0), x, stored);
    var c := SetBoth(s, t, Installing(job, i, |a.data|), x, stored.(data := a.data));
    var e := SetBoth(s, t, Storing(job, i + 1), x, Written(r, job.cts, a.data));
    assert StoreWord(s, b, t);
    Once(s, b, t);
    InstallsCells(b, t);
    assert c.threads == b.threads[t := c.threads[t]] && c.rows == b.rows[x := c.rows[x]];
    assert e.threads == c.threads[t := e.threads[t]] && e.rows == c.rows[x := e.rows[x]];
    assert InstallDone(c, e, t);
    Once(c, e, t);
    Then(s, b, c, t);
    Then(s, c, e, t);
  }

  lemma {:induction false} Installs(s: State, t: nat, job: Job, n: nat)
    requires t < |s.threads| && s.threads[t] == Storing(job, 0) && Within(job.ws, |s.rows|) && n <= |job.ws| && Distinct(job.ws)
    requires forall i :: 0 <= i < |job.ws| ==> |s.rows[job.ws[i].row].data| == |job.ws[i].data|
    ensures Alone(s, SetThread(s, t, Storing(job, n)).(rows := WrittenRows(s.rows, job.ws, job.cts, n)), t)
  {
    hide Alone, Written;
    var e := SetThread(s, t, Storing(job, n)).(rows := WrittenRows(s.rows, job.ws, job.cts, n));
    if n == 0 {
      assert e == s;
      Stay(s, t);
    } else {
      var b := SetThread(s, t, Storing(job, n - 1)).(rows := WrittenRows(s.rows, job.ws, job.cts, n - 1));
      Installs(s, t, job, n - 1);
      WrittenAt(s.rows, job.ws, job.cts, n - 1, job.ws[n - 1].row);
      InstallsOne(b, t, job, n - 1);
      assert e.threads == b.threads[t := e.threads[t]];
      Then(s, b, e, t);
    }
  }

  /** The rows right after the commit. */
  function CommittedRows(rows: seq<Row>, txn: Txn): (r: seq<Row>)
    ensures |r| == |rows|
  {
    seq(|rows|, x requires 0 <= x < |rows| =>
      if x in txn.written
      then rows[x].(hist := rows[x].hist + [Version(txn.ts, txn.written[x])], stage := Pending)
      else rows[x])
  }

  lemma Commits(s: State, t: nat, job: Job)
    requires t < |s.threads| && s.threads[t] == Renewing(job, |job.rs|)
    ensures var txn := TxnOf(job);
            Alone(s, State(CommittedRows(s.rows, txn), s.threads[t := Storing(job, 0)], Insert(s.order, txn), s.log + [txn]), t)
  {
    hide Alone, Insert, Reads, Writes;
    var txn := TxnOf(job);
    var e := State(CommittedRows(s.rows, txn), s.threads[t := Storing(job, 0)], Insert(s.order, txn), s.log + [txn]);
    assert Commit(s, e, t);
    Once(s, e, t);
  }

  // ---------------------------------------------------------------- the whole commit

  /** A thread that has read rows that nobody has locked or changed since. */
  ghost predicate Ready(s: State, t: nat) {
    && t < |s.threads| && s.threads[t].Running? && Distinct(s.threads[t].acc)
    && Within(s.threads[t].acc, |s.rows|) && Unchanged(s.rows, s.threads[t].acc)
  }

  lemma {:induction false} FilterReady(rows: seq<Row>, acc: seq<Access<Lease>>, w: bool)
    requires Distinct(acc) && Within(acc, |rows|) && Unchanged(rows, acc)
    ensures var f := Filter(acc, w); Distinct(f) && Within(f, |rows|) && Unchanged(rows, f)
  {
    FilterDistinct(acc, w);
    var f := Filter(acc, w);
    forall i | 0 <= i < |f| ensures exists k :: 0 <= k < |acc| && acc[k] == f[i] { var k := FilterFrom(acc, w, i); }
  }

  /** The write set is locked and the commit timestamp is chosen. */
  lemma Prepares(s: State, t: nat) returns (e: State, job: Job)
    requires t < |s.threads| && s.threads[t].Running? && Within(Filter(s.threads[t].acc, true), |s.rows|)
    requires Distinct(Filter(s.threads[t].acc, true)) && Unchanged(s.rows, Filter(s.threads[t].acc, true))
    ensures var acc := s.threads[t].acc;
      && job.ws == Filter(acc, true) && job.rs == Filter(acc, false) && Within(job.ws, |s.rows|) && Distinct(job.ws)
      && job.cts == Raised(s.rows, job.ws, CommitTs(acc), |job.ws|)
    ensures e == SetThread(s, t, Renewing(job, 0)).(rows := LockedRows(s.rows, t, job.ws, |job.ws|)) && Alone(s, e, t)
  {
    hide Alone, LockedRows, Raised, CommitTs, Filter;
    var acc := s.threads[t].acc;
    var start := Job(Filter(acc, true), Filter(acc, false), CommitTs(acc));
    var rows := LockedRows(s.rows, t, start.ws, |start.ws|);
    SameRaised(s.rows, t, start.ws, CommitTs(acc), |start.ws|);
    job := start.(cts := Raised(rows, start.ws, start.cts, |start.ws|));
    var a := SetThread(s, t, Locking(start, 0));
    var b := SetThread(a, t, Locking(start, |start.ws|)).(rows := rows);
    var c := SetThread(b, t, Raising(start, 0));
    var d := SetThread(c, t, Raising(Job(start.ws, start.rs, job.cts), |start.ws|));
    e := SetThread(s, t, Renewing(job, 0)).(rows := rows);
    assert Validate(s, a, t);
    Once(s, a, t);
    Locks(a, t, start, |start.ws|);
    assert AllLocked(b, c, t);
    Once(b, c, t);
    Raises(c, t, start, |start.ws|);
    assert e.threads == d.threads[t := e.threads[t]];
    assert RaiseDone(d, e, t);
    Once(d, e, t);
    Then(s, a, b, t);
    Then(s, b, c, t);
    Then(s, c, d, t);
    Then(s, d, e, t);
  }

  /** Locking moves no timestamp. */
  lemma {:induction false} SameRaised(rows: seq<Row>, t: nat, ws: seq<Access<Lease>>, cts: nat, n: nat)
    requires Within(ws, |rows|) && n <= |ws| && Distinct(ws)
    ensures Raised(LockedRows(rows, t, ws, |ws|), ws, cts, n) == Raised(rows, ws, cts, n)
  {
    hide LockedRows, Raised;
    if n == 0 {
      NoneRaised(rows, ws, cts);
      NoneRaised(LockedRows(rows, t, ws, |ws|), ws, cts);
    } else {
      SameRaised(rows, t, ws, cts, n - 1);
      LockedAt(rows, t, ws, |ws|, ws[n - 1].row);
      RaisedNext(rows, ws, cts, n);
      RaisedNext(LockedRows(rows, t, ws, |ws|), ws, cts, n);
    }
  }

  /** The rows when the transaction is done. */
  function DoneRows(rows: seq<Row>, t: nat, job: Job): (r: seq<Row>)
    requires Within(job.ws, |rows|) && Within(job.rs, |rows|)
    ensures |r| == |rows|
  {
    var locked := LockedRows(rows, t, job.ws, |job.ws|);
    var renewed := RenewedRows(locked, job.rs, job.cts, |job.rs|);
    WrittenRows(CommittedRows(renewed, TxnOf(job)), job.ws, job.cts, |job.ws|)
  }

  /** The transaction commits and its rows are written. */
  lemma Finishes(s: State, t: nat, job: Job) returns (e: State)
    requires t < |s.threads| && s.threads[t] == Renewing(job, |job.rs|) && Within(job.ws, |s.rows|) && Distinct(job.ws)
    requires forall i :: 0 <= i < |job.ws| ==> |s.rows[job.ws[i].row].data| == |job.ws[i].data|
    ensures e == State(WrittenRows(CommittedRows(s.rows, TxnOf(job)), job.ws, job.cts, |job.ws|),
                       s.threads[t := Running([])], Insert(s.order, TxnOf(job)), s.log + [TxnOf(job)])
    ensures Alone(s, e, t)
  {
    hide Alone, Insert, Reads, Writes, WrittenRows;
    var txn := TxnOf(job);
    var rows := CommittedRows(s.rows, txn);
    var b := State(rows, s.threads[t := Storing(job, 0)], Insert(s.order, txn), s.log + [txn]);
    var c := SetThread(b, t, Storing(job, |job.ws|)).(rows := WrittenRows(rows, job.ws, job.cts, |job.ws|));
    e := SetThread(c, t, Running([]));
    Commits(s, t, job);
    Installs(b, t, job, |job.ws|);
    assert Finish(c, e, t);
    Once(c, e, t);
    Then(s, b, c, t);
    Then(s, c, e, t);
    assert e.threads == s.threads[t := Running([])];
  }

  /** The read set is renewed, and the transaction finishes. */
  lemma Completes(s: State, t: nat, job: Job) returns (e: State)
    requires t < |s.threads| && s.threads[t] == Renewing(job, 0)
    requires Within(job.ws, |s.rows|) && Within(job.rs, |s.rows|) && Distinct(job.ws) && Distinct(job.rs)
    requires Renewable(s.rows, job.rs, job.cts)
    requires forall i :: 0 <= i < |job.ws| ==> |s.rows[job.ws[i].row].data| == |job.ws[i].data|
    ensures var rows := RenewedRows(s.rows, job.rs, job.cts, |job.rs|);
            e == State(WrittenRows(CommittedRows(rows, TxnOf(job)), job.ws, job.cts, |job.ws|),
                       s.threads[t := Running([])], Insert(s.order, TxnOf(job)), s.log + [TxnOf(job)])
    ensures Alone(s, e, t)
  {
    hide Alone, Insert, Reads, Writes, WrittenRows, RenewedRows;
    var a := SetThread(s, t, Renewing(job, |job.rs|)).(rows := RenewedRows(s.rows, job.rs, job.cts, |job.rs|));
    Renews(s, t, job, |job.rs|);
    forall i | 0 <= i < |job.ws| ensures |a.rows[job.ws[i].row].data| == |job.ws[i].data| { SameLength(s.rows, job.rs, job.cts, |job.rs|, job.ws[i].row); }
    e := Finishes(a, t, job);
    Then(s, a, e, t);
    assert e.threads == s.threads[t := Running([])];
  }

  lemma {:induction false} SameLength(rows: seq<Row>, rs: seq<Access<Lease>>, cts: nat, n: nat, x: nat)
    requires Within(rs, |rows|) && n <= |rs| && x < |rows|
    ensures RenewedRows(rows, rs, cts, n)[x].data == rows[x].data && RenewedRows(rows, rs, cts, n)[x].hist == rows[x].hist
  {
    if n > 0 { SameLength(rows, rs, cts, n - 1, x); }
  }

  lemma {:induction false} CommitTsIsLeast(acc: seq<Access<Lease>>)
    ensures CommitTs(acc) == 0 || exists a :: a in acc && CommitTs(acc) == if a.write then a.ver.rts + 1 else a.ver.wts
  {
    if acc != [] {
      CommitTsIsLeast(acc[..|acc| - 1]);
      assert acc[|acc| - 1] in acc;
    }
  }

  ghost predicate Reaches(rows: seq<Row>, a: Access<Lease>, ts: nat)
    requires a.row < |rows|
  {
    if a.write then ts == a.ver.rts + 1 || ts == rows[a.row].word.Rts() + 1 else ts == a.ver.wts
  }

  /** The timestamp is above every lease it ends and at or above every version it reads, and no
      smaller one is. */
  ghost predicate Least(rows: seq<Row>, acc: seq<Access<Lease>>, ts: nat)
    requires Within(acc, |rows|)
  {
    && (forall i :: 0 <= i < |acc| ==>
          if acc[i].write then ts > acc[i].ver.rts && ts > rows[acc[i].row].word.Rts() else ts >= acc[i].ver.wts)
    && (ts == 0 || exists i :: 0 <= i < |acc| && Reaches(rows, acc[i], ts))
  }

  lemma RaisedIsLeast(rows: seq<Row>, acc: seq<Access<Lease>>)
    requires Within(acc, |rows|) && Within(Filter(acc, true), |rows|)
    ensures Least(rows, acc, Raised(rows, Filter(acc, true), CommitTs(acc), |Filter(acc, true)|))
  {
    hide CommitTs, Filter, Raised;
    var ws := Filter(acc, true);
    var ts := Raised(rows, ws, CommitTs(acc), |ws|);
    CommitTsIsLeast(acc);
    forall i | 0 <= i < |acc| ensures if acc[i].write then ts > acc[i].ver.rts && ts > rows[acc[i].row].word.Rts() else ts >= acc[i].ver.wts {
      assert acc[i] in acc;
      if acc[i].write { var k := InFilter(acc, i); }
    }
    if ts == CommitTs(acc) {
      if a :| a in acc && ts == if a.write then a.ver.rts + 1 else a.ver.wts {
        var i :| 0 <= i < |acc| && acc[i] == a;
      }
    } else {
      var k :| 0 <= k < |ws| && ts == rows[ws[k].row].word.Rts() + 1;
      var i := FilterFrom(acc, true, k);
    }
  }

  /** What the access has become of its row, when the transaction is done. */
  ghost predicate Settled(before: Row, after: Row, a: Access<Lease>, ts: nat) {
    if a.write then after == Row(Word(false, ts, 0), a.data, before.hist + [Version(ts, a.data)], Free, Clean)
    else after == Renewed(before, a, ts)
  }

  lemma SettledRow(rows: seq<Row>, t: nat, acc: seq<Access<Lease>>, job: Job, k: nat)
    requires Distinct(acc) && Within(acc, |rows|) && job.ws == Filter(acc, true) && job.rs == Filter(acc, false)
    requires Within(job.ws, |rows|) && Within(job.rs, |rows|) && k < |acc|
    ensures Settled(rows[acc[k].row], DoneRows(rows, t, job)[acc[k].row], acc[k], job.cts)
  {
    hide Filter, Reads, Renewed, LockedRows, RenewedRows, WrittenRows, Writes;
    var x := acc[k].row;
    var locked := LockedRows(rows, t, job.ws, |job.ws|);
    var renewed := RenewedRows(locked, job.rs, job.cts, |job.rs|);
    FilterDistinct(acc, true);
    FilterDistinct(acc, false);
    FilterApart(acc);
    var i := InFilter(acc, k);
    LockedAt(rows, t, job.ws, |job.ws|, x);
    RenewedAt(locked, job.rs, job.cts, |job.rs|, x);
    WrittenAt(CommittedRows(renewed, TxnOf(job)), job.ws, job.cts, |job.ws|, x);
    if acc[k].write {
      WrittenIs(job.ws, i);
    } else {
      if x in Writes(job.ws) { var j := WriteSlot(job.ws, x); }
    }
  }

  lemma UntouchedRow(rows: seq<Row>, t: nat, acc: seq<Access<Lease>>, job: Job, x: nat)
    requires Distinct(acc) && Within(acc, |rows|) && job.ws == Filter(acc, true) && job.rs == Filter(acc, false)
    requires Within(job.ws, |rows|) && Within(job.rs, |rows|) && x < |rows| && forall k :: 0 <= k < |acc| ==> acc[k].row != x
    ensures DoneRows(rows, t, job)[x] == rows[x]
  {
    hide Filter, Reads, Renewed, LockedRows, RenewedRows, WrittenRows, Writes;
    var locked := LockedRows(rows, t, job.ws, |job.ws|);
    FilterDistinct(acc, true);
    FilterDistinct(acc, false);
    forall i | 0 <= i < |job.ws| ensures job.ws[i].row != x { var k := FilterFrom(acc, true, i); }
    forall i | 0 <= i < |job.rs| ensures job.rs[i].row != x { var k := FilterFrom(acc, false, i); }
    LockedAt(rows, t, job.ws, |job.ws|, x);
    RenewedAt(locked, job.rs, job.cts, |job.rs|, x);
    WrittenAt(CommittedRows(RenewedRows(locked, job.rs, job.cts, |job.rs|), TxnOf(job)), job.ws, job.cts, |job.ws|, x);
    if x in Writes(job.ws) { var j := WriteSlot(job.ws, x); }
  }

  lemma RenewableAlone(rows: seq<Row>, t: nat, acc: seq<Access<Lease>>, cts: nat)
    requires Distinct(acc) && Within(acc, |rows|) && Unchanged(rows, acc) && cts >= CommitTs(acc)
    ensures var ws, rs := Filter(acc, true), Filter(acc, false);
      && Within(ws, |rows|) && Within(rs, |rows|) && Distinct(rs)
      && Renewable(LockedRows(rows, t, ws, |ws|), rs, cts)
      && forall i :: 0 <= i < |ws| ==> |LockedRows(rows, t, ws, |ws|)[ws[i].row].data| == |ws[i].data|
  {
    hide Filter, LockedRows, CommitTs;
    var ws, rs := Filter(acc, true), Filter(acc, false);
    FilterReady(rows, acc, true);
    FilterReady(rows, acc, false);
    FilterApart(acc);
    forall i | 0 <= i < |rs| ensures rs[i] in acc && LockedRows(rows, t, ws, |ws|)[rs[i].row] == rows[rs[i].row] {
      var k := FilterFrom(acc, false, i);
      LockedAt(rows, t, ws, |ws|, rs[i].row);
    }
    forall i | 0 <= i < |ws| ensures |LockedRows(rows, t, ws, |ws|)[ws[i].row].data| == |ws[i].data| { LockedAt(rows, t, ws, |ws|, ws[i].row); }
    forall i | 0 <= i < |rs| ensures rs[i].ver.wts <= cts {
      var k := FilterFrom(acc, false, i);
      assert acc[k] in acc;
    }
  }

  /** A transaction whose rows nobody has locked or changed since it read them commits when it runs
      alone, however many rows it reads and writes, at the least timestamp its accesses allow: its
      commit is logged, its rows hold what it has set, its reads are renewed, no other row or
      thread has changed, and it is ready for the next transaction. */
  lemma CommitsAlone(s: State, t: nat) returns (e: State)
    requires Ready(s, t)
    ensures Alone(s, e, t) && e.threads == s.threads[t := Running([])]
    ensures |e.log| == |s.log| + 1 && e.log[..|s.log|] == s.log
    ensures var acc, ts := s.threads[t].acc, e.log[|s.log|].ts;
      && Least(s.rows, acc, ts) && |e.rows| == |s.rows|
      && (forall i :: 0 <= i < |acc| ==> Settled(s.rows[acc[i].row], e.rows[acc[i].row], acc[i], ts))
      && (forall x :: 0 <= x < |s.rows| && (forall i :: 0 <= i < |acc| ==> acc[i].row != x) ==> e.rows[x] == s.rows[x])
    ensures e.log[|s.log|].seen == Reads(s.threads[t].acc) && e.log[|s.log|].written == Writes(Filter(s.threads[t].acc, true))
    ensures e.order == Insert(s.order, e.log[|s.log|])
  {
    hide Alone, LockedRows, RenewedRows, WrittenRows, Raised, CommitTs, Filter, Reads, Writes, Insert, Settled, Least, Unchanged, Renewable;
    var acc := s.threads[t].acc;
    FilterReady(s.rows, acc, true);
    var b, job := Prepares(s, t);
    RenewableAlone(s.rows, t, acc, job.cts);
    e := Completes(b, t, job);
    Then(s, b, e, t);
    assert e.threads == s.threads[t := Running([])] && e.rows == DoneRows(s.rows, t, job);
    RaisedIsLeast(s.rows, acc);
    SetsReport(acc);
    forall i | 0 <= i < |acc| ensures Settled(s.rows[acc[i].row], e.rows[acc[i].row], acc[i], job.cts) { SettledRow(s.rows, t, acc, job, i); }
    forall x | 0 <= x < |s.rows| && (forall i :: 0 <= i < |acc| ==> acc[i].row != x) ensures e.rows[x] == s.rows[x] {
      UntouchedRow(s.rows, t, acc, job, x);
    }
  }
}
