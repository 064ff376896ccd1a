/** What a transaction under optimistic concurrency control achieves when nobody gets in its way:
    it reads what has not been written since it began, and it commits. */
module OccAlone {
  import opened Serial
  import opened Occ
  import opened OccReports
  import OccProof

  /** Steps of one thread lead from `s` to `e`. */
  ghost predicate Alone(s: State, e: State, t: nat) {
    exists run: seq<State> :: run != [] && run[0] == s && run[|run| - 1] == e && ByThread(run, t)
  }

  ghost predicate ByThread(run: seq<State>, t: nat) {
    forall i :: 0 <= i < |run| - 1 ==> Step(run[i], run[i + 1], t)
  }

  lemma Stay(s: State, t: nat)
    ensures Alone(s, s, t)
  {
    assert ByThread([s], t);
  }

  lemma Once(s: State, e: State, t: nat)
    requires Step(s, e, t)
    ensures Alone(s, e, t)
  {
    hide Step;
    assert ByThread([s, e], t);
  }

  lemma Then(a: State, b: State, c: State, t: nat)
    requires Alone(a, b, t) && Alone(b, c, t)
    ensures Alone(a, c, t)
  {
    hide Step;
    var p: seq<State> :| p != [] && p[0] == a && p[|p| - 1] == b && ByThread(p, t);
    var q: seq<State> :| q != [] && q[0] == b && q[|q| - 1] == c && ByThread(q, t);
    var run := p + q[1..];
    forall i | 0 <= i < |run| - 1 ensures Step(run[i], run[i + 1], t) {
      if i < |p| - 1 {
        assert Step(p[i], p[i + 1], t);
      } else {
        assert Step(q[i - |p| + 1], q[i - |p| + 2], t);
        assert run[i] == q[i - |p| + 1] && run[i + 1] == q[i - |p| + 2];
      }
    }
    assert ByThread(run, t);
  }

  /** A row that has not been written since the transaction began can be read. */
  lemma Reading(s: State, t: nat, x: nat, write: bool)
    requires t < |s.threads| && s.threads[t].Running? && x < |s.rows| && !Touches(s.threads[t].acc, x)
    requires s.rows[x].latch.Open? && s.rows[x].wts <= s.threads[t].start
    ensures Alone(s, SetThread(s, t, Running(s.threads[t].start, s.threads[t].acc + [Access(x, write, s.rows[x].data, s.rows[x].data)])), t)
  {
    hide Alone, Touches;
    var e := SetThread(s, t, Running(s.threads[t].start, s.threads[t].acc + [Access(x, write, s.rows[x].data, s.rows[x].data)]));
    assert Read(s, e, t, x, write);
    Once(s, e, t);
  }

  // ---------------------------------------------------------------- the latches

  function Latched(rows: seq<Row>, t: nat, acc: seq<Access>, n: nat): (r: seq<Row>)
    requires Within(acc, |rows|) && n <= |acc|
    ensures |r| == |rows|
  {
    if n == 0 then rows
    else
      var before, x := Latched(rows, t, acc, n - 1), acc[n - 1].row;
      before[x := Row(before[x].wts, before[x].data, HeldBy(t))]
  }

  ghost predicate Within(acc: seq<Access>, n: nat) { forall i :: 0 <= i < |acc| ==> acc[i].row < n }

  lemma {:induction false} LatchedAt(rows: seq<Row>, t: nat, acc: seq<Access>, n: nat, x: nat)
    requires Within(acc, |rows|) && n <= |acc| && x < |rows|
    ensures (forall i :: 0 <= i < n ==> acc[i].row != x) ==> Latched(rows, t, acc, n)[x] == rows[x]
    ensures (exists i :: 0 <= i < n && acc[i].row == x) ==> Latched(rows, t, acc, n)[x] == Row(rows[x].wts, rows[x].data, HeldBy(t))
    ensures Latched(rows, t, acc, n)[x].wts == rows[x].wts && Latched(rows, t, acc, n)[x].data == rows[x].data
  {
    if n > 0 { LatchedAt(rows, t, acc, n - 1, x); }
  }

  lemma {:induction false} Latches(s: State, t: nat, start: nat, acc: seq<Access>, n: nat)
    requires t < |s.threads| && s.threads[t] == Latching(start, acc, 0) && DistinctRows(acc, |s.rows|) && Within(acc, |s.rows|) && n <= |acc|
    requires forall i :: 0 <= i < |acc| ==> s.rows[acc[i].row].latch.Open? && s.rows[acc[i].row].wts <= start
    ensures Alone(s, SetThread(s, t, Latching(start, acc, n)).(rows := Latched(s.rows, t, acc, n)), t)
  {
    hide Alone;
    var e := SetThread(s, t, Latching(start, acc, n)).(rows := Latched(s.rows, t, acc, n));
    if n == 0 {
      assert e == s;
      Stay(s, t);
    } else {
      var b := SetThread(s, t, Latching(start, acc, n - 1)).(rows := Latched(s.rows, t, acc, n - 1));
      Latches(s, t, start, acc, n - 1);
      LatchedAt(s.rows, t, acc, n - 1, acc[n - 1].row);
      assert e.threads == b.threads[t := e.threads[t]];
      assert LatchRow(b, e, t);
      Once(b, e, t);
      Then(s, b, e, t);
    }
  }

  // ---------------------------------------------------------------- writing back and releasing

  /** The rows when the accesses from `i` on have been written back. */
  function Back(rows: seq<Row>, end: nat, acc: seq<Access>, i: nat): (r: seq<Row>)
    requires Within(acc, |rows|) && i <= |acc|
    ensures |r| == |rows|
    decreases |acc| - i
  {
    if i == |acc| then rows
    else
      var before, x := Back(rows, end, acc, i + 1), acc[i].row;
      if acc[i].write then before[x := Row(end, acc[i].data, before[x].latch)] else before
  }

  lemma {:induction false} BackAt(rows: seq<Row>, end: nat, acc: seq<Access>, i: nat, x: nat)
    requires DistinctRows(acc, |rows|) && Within(acc, |rows|) && i <= |acc| && x < |rows|
    ensures forall k :: i <= k < |acc| && acc[k].row == x && acc[k].write ==> Back(rows, end, acc, i)[x] == Row(end, acc[k].data, rows[x].latch)
    ensures (forall k :: i <= k < |acc| && acc[k].row == x ==> !acc[k].write) ==> Back(rows, end, acc, i)[x] == rows[x]
    decreases |acc| - i
  {
    if i < |acc| { BackAt(rows, end, acc, i + 1, x); }
  }

  lemma {:induction false} WritesBack(s: State, t: nat, end: nat, acc: seq<Access>, i: nat)
    requires t < |s.threads| && s.threads[t] == Writing(end, acc, |acc|) && Within(acc, |s.rows|) && i <= |acc|
    ensures Alone(s, SetThread(s, t, Writing(end, acc, i)).(rows := Back(s.rows, end, acc, i)), t)
    decreases |acc| - i
  {
    hide Alone;
    var e := SetThread(s, t, Writing(end, acc, i)).(rows := Back(s.rows, end, acc, i));
    if i == |acc| {
      assert e == s;
      Stay(s, t);
    } else {
      var b := SetThread(s, t, Writing(end, acc, i + 1)).(rows := Back(s.rows, end, acc, i + 1));
      WritesBack(s, t, end, acc, i + 1);
      assert e.threads == b.threads[t := e.threads[t]];
      assert WriteBack(b, e, t);
      Once(b, e, t);
      Then(s, b, e, t);
    }
  }

  function Opened(rows: seq<Row>, acc: seq<Access>, n: nat): (r: seq<Row>)
    requires Within(acc, |rows|) && n <= |acc|
    ensures |r| == |rows|
  {
    if n == 0 then rows
    else
      var before, x := Opened(rows, acc, n - 1), acc[n - 1].row;
      before[x := Row(before[x].wts, before[x].data, Open)]
  }

  lemma {:induction false} OpenedAt(rows: seq<Row>, acc: seq<Access>, n: nat, x: nat)
    requires Within(acc, |rows|) && n <= |acc| && x < |rows|
    ensures (forall i :: 0 <= i < n ==> acc[i].row != x) ==> Opened(rows, acc, n)[x] == rows[x]
    ensures (exists i :: 0 <= i < n && acc[i].row == x) ==> Opened(rows, acc, n)[x] == Row(rows[x].wts, rows[x].data, Open)
    ensures Opened(rows, acc, n)[x].wts == rows[x].wts && Opened(rows, acc, n)[x].data == rows[x].data
  {
    if n > 0 { OpenedAt(rows, acc, n - 1, x); }
  }

  lemma {:induction false} Releases(s: State, t: nat, acc: seq<Access>, n: nat)
    requires t < |s.threads| && s.threads[t] == Releasing(acc, 0, |acc|) && Within(acc, |s.rows|) && n <= |acc|
    ensures Alone(s, SetThread(s, t, Releasing(acc, n, |acc|)).(rows := Opened(s.rows, acc, n)), t)
  {
    hide Alone;
    var e := SetThread(s, t, Releasing(acc, n, |acc|)).(rows := Opened(s.rows, acc, n));
    if n == 0 {
      assert e == s;
      Stay(s, t);
    } else {
      var b := SetThread(s, t, Releasing(acc, n - 1, |acc|)).(rows := Opened(s.rows, acc, n - 1));
      Releases(s, t, acc, n - 1);
      assert e.threads == b.threads[t := e.threads[t]];
      assert Release(b, e, t);
      Once(b, e, t);
      Then(s, b, e, t);
    }
  }

  // ---------------------------------------------------------------- the whole commit

  /** A thread whose rows nobody has latched or written since it began. */
  ghost predicate Ready(s: State, t: nat) {
    && t < |s.threads| && s.threads[t].Running? && DistinctRows(s.threads[t].acc, |s.rows|)
    && forall i :: 0 <= i < |s.threads[t].acc| ==>
         && s.threads[t].acc[i].row < |s.rows|
         && s.rows[s.threads[t].acc[i].row].latch.Open? && s.rows[s.threads[t].acc[i].row].wts <= s.threads[t].start
  }

  function DoneRows(rows: seq<Row>, t: nat, end: nat, acc: seq<Access>): (r: seq<Row>)
    requires Within(acc, |rows|)
    ensures |r| == |rows|
  {
    Opened(Back(Latched(rows, t, acc, |acc|), end, acc, 0), acc, |acc|)
  }

  lemma DoneAt(rows: seq<Row>, t: nat, end: nat, acc: seq<Access>, x: nat)
    requires DistinctRows(acc, |rows|) && Within(acc, |rows|) && x < |rows| && rows[x].latch.Open?
    ensures forall k :: 0 <= k < |acc| && acc[k].row == x ==>
              DoneRows(rows, t, end, acc)[x] == if acc[k].write then Row(end, acc[k].data, Open) else rows[x]
  {
    hide Latched, Back, Opened;
    LatchedAt(rows, t, acc, |acc|, x);
    BackAt(Latched(rows, t, acc, |acc|), end, acc, 0, x);
    OpenedAt(Back(Latched(rows, t, acc, |acc|), end, acc, 0), acc, |acc|, x);
  }

  /** Rows that the transaction has not accessed are left alone, whoever has them latched. */
  lemma UntouchedAt(rows: seq<Row>, t: nat, end: nat, acc: seq<Access>, x: nat)
    requires DistinctRows(acc, |rows|) && Within(acc, |rows|) && x < |rows| && forall k :: 0 <= k < |acc| ==> acc[k].row != x
    ensures DoneRows(rows, t, end, acc)[x] == rows[x]
  {
    hide Latched, Back, Opened;
    LatchedAt(rows, t, acc, |acc|, x);
    BackAt(Latched(rows, t, acc, |acc|), end, acc, 0, x);
    OpenedAt(Back(Latched(rows, t, acc, |acc|), end, acc, 0), acc, |acc|, x);
  }

  lemma SortedReady(s: State, t: nat, acc: seq<Access>, sorted: seq<Access>)
    requires Ready(s, t) && acc == s.threads[t].acc && multiset(sorted) == multiset(acc)
    ensures DistinctRows(sorted, |s.rows|) && Within(sorted, |s.rows|)
    ensures forall i :: 0 <= i < |sorted| ==> s.rows[sorted[i].row].latch.Open? && s.rows[sorted[i].row].wts <= s.threads[t].start
  {
    forall i | 0 <= i < |sorted| ensures exists k :: 0 <= k < |acc| && acc[k] == sorted[i] { assert sorted[i] in multiset(acc); }
    OccProof.SortedIsDistinct(acc, sorted);
  }

  /** Up to the commit. */
  lemma GetsTo(s: State, t: nat, sorted: seq<Access>) returns (c: State)
    requires Ready(s, t) && multiset(sorted) == multiset(s.threads[t].acc) && Within(sorted, |s.rows|)
    ensures var txn := TxnOf(|s.rows|, s.clock + 1, sorted);
            c == State(Latched(s.rows, t, sorted, |sorted|), s.threads[t := Writing(s.clock + 1, sorted, |sorted|)],
                       s.clock + 1, Apply(s.db, txn.written), s.log + [txn])
    ensures Alone(s, c, t)
  {
    hide Alone, Latched, Apply, TxnOf, DistinctRows;
    var th := s.threads[t];
    SortedReady(s, t, th.acc, sorted);
    var txn := TxnOf(|s.rows|, s.clock + 1, sorted);
    var latched := Latched(s.rows, t, sorted, |sorted|);
    var a := SetThread(s, t, Latching(th.start, sorted, 0));
    var b := SetThread(s, t, Latching(th.start, sorted, |sorted|)).(rows := latched);
    c := State(latched, s.threads[t := Writing(s.clock + 1, sorted, |sorted|)], s.clock + 1, Apply(s.db, txn.written), s.log + [txn]);
    assert Validate(s, a, t, sorted);
    Once(s, a, t);
    Latches(a, t, th.start, sorted, |sorted|);
    assert b.threads == a.threads[t := b.threads[t]] && c.threads == b.threads[t := c.threads[t]];
    assert Commit(b, c, t);
    Once(b, c, t);
    Then(s, a, b, t);
    Then(s, b, c, t);
  }

  /** From the commit to the end. */
  lemma GetsDone(c: State, t: nat, end: nat, sorted: seq<Access>) returns (e: State)
    requires t < |c.threads| && c.threads[t] == Writing(end, sorted, |sorted|) && Within(sorted, |c.rows|)
    ensures e == c.(threads := c.threads[t := Idle], rows := Opened(Back(c.rows, end, sorted, 0), sorted, |sorted|))
    ensures Alone(c, e, t)
  {
    hide Alone, Back, Opened;
    var back := Back(c.rows, end, sorted, 0);
    var rows := Opened(back, sorted, |sorted|);
    var d := c.(threads := c.threads[t := Writing(end, sorted, 0)], rows := back);
    var f := d.(threads := c.threads[t := Releasing(sorted, 0, |sorted|)]);
    var g := f.(threads := c.threads[t := Releasing(sorted, |sorted|, |sorted|)], rows := rows);
    e := g.(threads := c.threads[t := Idle]);
    WritesBack(c, t, end, sorted, 0);
    assert f.threads == d.threads[t := f.threads[t]];
    assert WrittenBack(d, f, t);
    Once(d, f, t);
    Releases(f, t, sorted, |sorted|);
    assert g.threads == f.threads[t := g.threads[t]] && e.threads == g.threads[t := e.threads[t]];
    assert Finish(g, e, t);
    Once(g, e, t);
    Then(c, d, f, t);
    Then(c, f, g, t);
    Then(c, g, e, t);
  }

  /** A transaction whose rows nobody has latched or written since it began commits when it runs
      alone, in whatever order it latches them, with the next end timestamp: its commit is logged,
      its rows hold what it has set, no other row or thread has changed. */
  lemma CommitsAlone(s: State, t: nat, sorted: seq<Access>) returns (e: State)
    requires Ready(s, t) && multiset(sorted) == multiset(s.threads[t].acc)
    ensures Alone(s, e, t) && e.threads == s.threads[t := Idle] && e.clock == s.clock + 1
    ensures |e.log| == |s.log| + 1 && e.log[..|s.log|] == s.log && e.log[|s.log|] == TxnOf(|s.rows|, s.clock + 1, sorted)
    ensures var acc := s.threads[t].acc;
      && |e.rows| == |s.rows|
      && (forall i :: 0 <= i < |acc| ==>
            e.rows[acc[i].row] == if acc[i].write then Row(s.clock + 1, acc[i].data, Open) else s.rows[acc[i].row])
      && (forall x :: 0 <= x < |s.rows| && (forall i :: 0 <= i < |acc| ==> acc[i].row != x) ==> e.rows[x] == s.rows[x])
  {
    hide Alone, Latched, Back, Opened, Apply, TxnOf, DistinctRows;
    DoneEverywhere(s, t, s.clock + 1, sorted);
    var c := GetsTo(s, t, sorted);
    e := GetsDone(c, t, s.clock + 1, sorted);
    Then(s, c, e, t);
    assert e.threads == s.threads[t := Idle];
  }

  lemma DoneEverywhere(s: State, t: nat, end: nat, sorted: seq<Access>)
    requires Ready(s, t) && multiset(sorted) == multiset(s.threads[t].acc)
    ensures Within(sorted, |s.rows|)
    ensures var acc, rows := s.threads[t].acc, DoneRows(s.rows, t, end, sorted);
      && (forall i :: 0 <= i < |acc| ==> rows[acc[i].row] == if acc[i].write then Row(end, acc[i].data, Open) else s.rows[acc[i].row])
      && (forall x :: 0 <= x < |s.rows| && (forall i :: 0 <= i < |acc| ==> acc[i].row != x) ==> rows[x] == s.rows[x])
  {
    hide DoneRows, DistinctRows;
    var acc := s.threads[t].acc;
    SortedReady(s, t, acc, sorted);
    forall i | 0 <= i < |acc|
      ensures DoneRows(s.rows, t, end, sorted)[acc[i].row] == if acc[i].write then Row(end, acc[i].data, Open) else s.rows[acc[i].row]
    {
      assert acc[i] in multiset(sorted);
      var k :| 0 <= k < |sorted| && sorted[k] == acc[i];
      DoneAt(s.rows, t, end, sorted, acc[i].row);
    }
    forall x | 0 <= x < |s.rows| && (forall i :: 0 <= i < |acc| ==> acc[i].row != x) ensures DoneRows(s.rows, t, end, sorted)[x] == s.rows[x] {
      forall k | 0 <= k < |sorted| ensures sorted[k].row != x {
        assert sorted[k] in multiset(acc);
        var i :| 0 <= i < |acc| && acc[i] == sorted[k];
      }
      UntouchedAt(s.rows, t, end, sorted, x);
    }
  }
}
