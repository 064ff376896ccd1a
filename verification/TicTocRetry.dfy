/** Why the retry of a TicToc renewal is followed only where it cannot shorten a lease: a run from
    the start in which one retry does, and two committed transactions have each overwritten what
    the other one read. */
module TicTocRetry {
  import opened Serial
  import opened Versions
  import opened AccessList
  import opened TicTocWord
  import opened TicToc
  import A = TicTocAlone

  /** The renewal loop after a lost compare-and-swap, as the source has it. */
  ghost predicate Retries(s: State, s': State, t: nat) {
    && t < |s.threads|
    && var th := s.threads[t];
    && th.Swapping? && th.j < |th.job.rs|
    && var x := th.job.rs[th.j].row;
    && x < |s.rows|
    && s' == SetThread(s, t, AfterPlan(th.job, th.j, s.rows[x].word, Retry(s.rows[x].word, th.want, th.rebase, th.job.cts)))
  }

  ghost predicate LooseStep(s: State, s': State, t: nat) {
    Step(s, s', t) || Retries(s, s', t)
  }

  ghost predicate Path(run: seq<State>, who: seq<nat>) {
    && run != [] && |who| == |run| - 1
    && forall i :: 0 <= i < |who| ==> LooseStep(run[i], run[i + 1], who[i])
  }

  ghost predicate Leads(s: State, e: State) {
    exists run, who :: Path(run, who) && run[0] == s && run[|run| - 1] == e
  }

  lemma Then(a: State, b: State, c: State)
    requires Leads(a, b) && Leads(b, c)
    ensures Leads(a, c)
  {
    hide LooseStep;
    var p, wp :| Path(p, wp) && p[0] == a && p[|p| - 1] == b;
    var q, wq :| Path(q, wq) && q[0] == b && q[|q| - 1] == c;
    var run, who := p + q[1..], wp + wq;
    forall i | 0 <= i < |who| ensures LooseStep(run[i], run[i + 1], who[i]) {
      if i < |wp| {
        assert LooseStep(p[i], p[i + 1], wp[i]);
      } else {
        assert LooseStep(q[i - |wp|], q[i - |wp| + 1], wq[i - |wp|]);
        assert run[i] == q[i - |wp|] && run[i + 1] == q[i - |wp| + 1];
      }
    }
    assert Path(run, who);
  }

  lemma Once(s: State, e: State, t: nat)
    requires LooseStep(s, e, t)
    ensures Leads(s, e)
  {
    hide LooseStep;
    assert Path([s, e], [t]);
  }

  /** What a thread achieves alone it can achieve here. */
  lemma AloneLeads(s: State, e: State, t: nat)
    requires A.Alone(s, e, t)
    ensures Leads(s, e)
  {
    hide Step;
    var run: seq<State> :| run != [] && run[0] == s && run[|run| - 1] == e && A.ByThread(run, t);
    var who := seq(|run| - 1, i => t);
    forall i | 0 <= i < |who| ensures LooseStep(run[i], run[i + 1], who[i]) { assert Step(run[i], run[i + 1], t); }
    assert Path(run, who);
  }

  // ---------------------------------------------------------------- a transaction that writes one row

  lemma Reading(s: State, t: nat, x: nat, write: bool)
    requires A.CanRead(s, t, x)
    ensures Leads(s, A.Read(s, t, x, write))
  {
    hide Leads, A.Alone, A.Read;
    A.Reading(s, t, x, write);
    AloneLeads(s, A.Read(s, t, x, write), t);
  }

  ghost predicate CanPrepare(s: State, t: nat, a: Access<Lease>, rs: seq<Access<Lease>>) {
    && t < |s.threads| && s.threads[t].Running? && a.row < |s.rows| && |s.rows[a.row].data| == |a.data|
    && Filter(s.threads[t].acc, true) == [a] && Filter(s.threads[t].acc, false) == rs
    && !s.rows[a.row].word.locked && s.rows[a.row].word.wts == a.ver.wts
  }

  function Raised(r: Row, acc: seq<Access<Lease>>): nat {
    if r.word.Rts() + 1 > CommitTs(acc) then r.word.Rts() + 1 else CommitTs(acc)
  }

  function Prepared(s: State, t: nat, a: Access<Lease>, rs: seq<Access<Lease>>): State
    requires t < |s.threads| && s.threads[t].Running? && a.row < |s.rows|
  {
    SetBoth(s, t, Renewing(Job([a], rs, Raised(s.rows[a.row], s.threads[t].acc)), 0), a.row, A.Locked(s.rows[a.row], t, 0))
  }

  lemma Preparing(s: State, t: nat, a: Access<Lease>, rs: seq<Access<Lease>>)
    requires CanPrepare(s, t, a, rs)
    ensures Leads(s, Prepared(s, t, a, rs))
  {
    hide Leads, A.Alone, CommitTs, Filter;
    var e, job := A.Prepares(s, t);
    OneLocked(s.rows, t, a, CommitTs(s.threads[t].acc));
    AloneLeads(s, e, t);
  }

  lemma OneLocked(rows: seq<Row>, t: nat, a: Access<Lease>, cts: nat)
    requires a.row < |rows|
    ensures A.LockedRows(rows, t, [a], 1) == rows[a.row := A.Locked(rows[a.row], t, 0)]
    ensures var least := rows[a.row].word.Rts() + 1; A.Raised(rows, [a], cts, 1) == if least > cts then least else cts
  {
  }

  ghost predicate CanInstall(s: State, t: nat, a: Access<Lease>) {
    && t < |s.threads| && a.row < |s.rows| && |s.rows[a.row].data| == |a.data|
    && s.threads[t].Renewing? && s.threads[t].j == |s.threads[t].job.rs| && s.threads[t].job.ws == [a]
  }

  function Written(r: Row, cts: nat, v: Val): Row {
    Row(Word(false, cts, 0), v, r.hist + [Version(cts, v)], Free, Clean)
  }

  function Installed(s: State, t: nat, a: Access<Lease>): State
    requires CanInstall(s, t, a)
  {
    var job := s.threads[t].job;
    State(s.rows[a.row := Written(s.rows[a.row], job.cts, a.data)], s.threads[t := Running([])],
          Insert(s.order, TxnOf(job)), s.log + [TxnOf(job)])
  }

  lemma Installs(s: State, t: nat, a: Access<Lease>)
    requires CanInstall(s, t, a)
    ensures Leads(s, Installed(s, t, a))
  {
    hide Leads, A.Alone, Insert, Reads;
    var job := s.threads[t].job;
    var e := A.Finishes(s, t, job);
    OneWritten(s.rows, job, a);
    AloneLeads(s, e, t);
  }

  lemma OneWritten(rows: seq<Row>, job: Job, a: Access<Lease>)
    requires a.row < |rows| && job.ws == [a]
    ensures A.WrittenRows(A.CommittedRows(rows, TxnOf(job)), job.ws, job.cts, 1) == rows[a.row := Written(rows[a.row], job.cts, a.data)]
  {
    hide Reads;
    OneWrite(a);
  }

  lemma OneWrite(a: Access<Lease>)
    ensures Writes([a]) == map[a.row := a.data]
  {
    assert [a][..0] == [];
  }

  // ---------------------------------------------------------------- transactions that see the first value

  /** The transaction has read the first value in every row it touches. */
  ghost predicate Naive(u: Txn) {
    u.written.Keys <= u.seen.Keys && forall x :: x in u.seen ==> u.seen[x] == [0]
  }

  ghost predicate AllNaive(log: seq<Txn>) {
    forall i :: 0 <= i < |log| ==> Naive(log[i])
  }

  lemma {:induction false} ReadsHas(acc: seq<Access<Lease>>, i: nat)
    requires i < |acc|
    ensures acc[i].row in Reads(acc)
  {
    if i < |acc| - 1 { ReadsHas(acc[..|acc| - 1], i); }
  }

  lemma NaiveTxn(job: Job)
    requires forall a :: a in job.ws + job.rs ==> a.orig == [0]
    ensures Naive(TxnOf(job)) && forall a :: a in job.ws + job.rs ==> a.row in TxnOf(job).seen
  {
    var all := job.ws + job.rs;
    forall x | x in Reads(all) ensures Reads(all)[x] == [0] {
      var i := ReadSlot(all, x);
      assert all[i] in all;
    }
    forall x | x in Writes(job.ws) ensures x in Reads(all) {
      var i := WriteSlot(job.ws, x);
      ReadsHas(all, i);
    }
    forall a | a in all ensures a.row in Reads(all) {
      var i :| 0 <= i < |all| && all[i] == a;
      ReadsHas(all, i);
    }
  }

  lemma LegalThere(db: Db, o: seq<Txn>, k: nat)
    requires Replays(db, o) && k < |o|
    ensures Legal(Exec(db, o[..k]), o[k])
    ensures Exec(db, o[..k + 1]) == Apply(Exec(db, o[..k]), o[k].written)
  {
    ReplaysPrefix(db, o, k + 1);
    assert o[..k + 1][..k] == o[..k];
  }

  /** Once somebody has changed a row, nobody who has seen its first value can follow. */
  lemma {:induction false} Overtaken(db: Db, o: seq<Txn>, i: nat, k: nat, x: nat)
    requires Replays(db, o) && AllNaive(o) && i < k <= |o| && x < |db|
    requires x in o[i].written && o[i].written[x] != [0]
    ensures Exec(db, o[..k])[x] == o[i].written[x]
    ensures k < |o| ==> x !in o[k].seen
  {
    hide Replays, Exec;
    LegalThere(db, o, k - 1);
    if i < k - 1 { Overtaken(db, o, i, k - 1, x); }
    if k < |o| { LegalThere(db, o, k); }
  }

  /** Two transactions that have both seen the first values of two rows, and have changed one
      of them each, have no serial order. */
  lemma NoOrder(db: Db, o: seq<Txn>, a: Txn, b: Txn, x: nat, y: nat)
    requires AllNaive(o) && a in o && b in o && x < |db| && y < |db|
    requires x in a.seen && y in a.seen && x in b.seen && y in b.seen
    requires x in a.written && a.written[x] != [0] && y in b.written && b.written[y] != [0] && a != b
    ensures !Replays(db, o)
  {
    hide Replays, Exec;
    if Replays(db, o) {
      var i :| 0 <= i < |o| && o[i] == a;
      var j :| 0 <= j < |o| && o[j] == b;
      if i < j { Overtaken(db, o, i, j, x); } else { Overtaken(db, o, j, i, y); }
    }
  }

  // ---------------------------------------------------------------- the story

  const IDLE: Thread := Running([])

  /** A row that has been written up to `wts`, always with the first value. */
  ghost predicate Calm(r: Row, wts: nat) {
    r.word == Word(false, wts, 0) && r.data == [0]
  }

  /** A transaction that reads the row and writes back what it has read. */
  lemma Touch(s: State, t: nat, x: nat, wts: nat) returns (e: State)
    requires t < |s.threads| && s.threads[t] == IDLE && x < |s.rows| && Calm(s.rows[x], wts) && AllNaive(s.log)
    ensures Leads(s, e) && e.threads == s.threads && AllNaive(e.log)
    ensures |e.rows| == |s.rows| && e.rows == s.rows[x := e.rows[x]] && Calm(e.rows[x], wts + 1)
  {
    hide Leads, Naive, Insert, Reads, TxnOf;
    var a := A.CopyOf(s.rows[x], x, true);
    var s1 := A.Read(s, t, x, true);
    Reading(s, t, x, true);
    var none: seq<Access<Lease>> := [];
    assert none + [a] == [a];
    Sole(a);
    var s2 := Prepared(s1, t, a, []);
    Preparing(s1, t, a, []);
    var job := s2.threads[t].job;
    e := Installed(s2, t, a);
    Installs(s2, t, a);
    NaiveTxn(job);
    Then(s, s1, s2);
    Then(s, s2, e);
    assert e.threads == s.threads;
  }

  /** One more access. */
  lemma Snoc(acc: seq<Access<Lease>>, a: Access<Lease>, w: bool)
    ensures Filter(acc + [a], w) == Filter(acc, w) + if a.write == w then [a] else []
    ensures var least := if a.write then a.ver.rts + 1 else a.ver.wts;
            CommitTs(acc + [a]) == if least > CommitTs(acc) then least else CommitTs(acc)
  {
    assert (acc + [a])[..|acc|] == acc;
  }

  lemma Sole(a: Access<Lease>)
    ensures Filter([a], a.write) == [a] && Filter([a], !a.write) == []
    ensures CommitTs([a]) == if a.write then a.ver.rts + 1 else a.ver.wts
  {
    var none: seq<Access<Lease>> := [];
    assert none + [a] == [a];
    Snoc(none, a, true);
    Snoc(none, a, false);
  }

  lemma Pair(r: Access<Lease>, w: Access<Lease>)
    requires !r.write && w.write
    ensures Filter([r, w], true) == [w] && Filter([r, w], false) == [r]
    ensures CommitTs([r, w]) == if w.ver.rts + 1 > r.ver.wts then w.ver.rts + 1 else r.ver.wts
  {
    hide Filter, CommitTs;
    assert [r] + [w] == [r, w];
    Sole(r);
    Snoc([r], w, true);
    Snoc([r], w, false);
  }

  lemma TwoReads(a: Access<Lease>, b: Access<Lease>)
    requires !a.write && !b.write
    ensures Filter([a, b], true) == [] && Filter([a, b], false) == [a, b]
    ensures CommitTs([a, b]) == if b.ver.wts > a.ver.wts then b.ver.wts else a.ver.wts
  {
    hide Filter, CommitTs;
    assert [a] + [b] == [a, b];
    Sole(a);
    Snoc([a], b, true);
    Snoc([a], b, false);
  }

  const DB: Db := [[0], [0]]
  const NEW: Row := Row(Word(false, 0, 0), [0], [Version(0, [0])], Free, Clean)
  const START: State := State([NEW, NEW], [IDLE, IDLE, IDLE], [], [])

  ghost predicate Scene(s: State, a: Thread, c: Thread, x: Word, y: Word) {
    && s.threads == [a, IDLE, c] && |s.rows| == 2 && AllNaive(s.log)
    && s.rows[0].word == x && s.rows[0].data == [0] && s.rows[1].word == y && s.rows[1].data == [0]
  }

  /** Row 0 is written at 1 and 2, row 1 at 1, 2 and 3. */
  lemma SetUp() returns (e: State)
    ensures Leads(START, e) && Scene(e, IDLE, IDLE, Word(false, 2, 0), Word(false, 3, 0))
  {
    hide Leads;
    var s1 := Touch(START, 1, 0, 0);
    var s2 := Touch(s1, 1, 0, 1);
    var s3 := Touch(s2, 1, 1, 0);
    var s4 := Touch(s3, 1, 1, 1);
    e := Touch(s4, 1, 1, 2);
    Then(START, s1, s2);
    Then(START, s2, s3);
    Then(START, s3, s4);
    Then(START, s4, e);
  }

  /** The first thread has read both rows and is about to extend the lease on row 0 up to 3. */
  const RENEWER: Job := Job([], [Access(false, 0, Lease(2, 2), [0], [0]), Access(false, 1, Lease(3, 3), [0], [0])], 3)
  const WAITING: Thread := Swapping(RENEWER, 0, Word(false, 2, 0), Word(false, 2, 1), false)

  lemma ReadsBoth(s: State, t: nat, x: nat, xw: bool, y: nat, yw: bool)
    requires t < |s.threads| && s.threads[t] == IDLE && x < |s.rows| && y < |s.rows| && x != y
    requires !s.rows[x].word.locked && |s.rows[x].data| == 1 && !s.rows[y].word.locked && |s.rows[y].data| == 1
    ensures Leads(s, SetThread(s, t, Running([A.CopyOf(s.rows[x], x, xw), A.CopyOf(s.rows[y], y, yw)])))
  {
    hide Leads;
    var s1 := A.Read(s, t, x, xw);
    var none: seq<Access<Lease>> := [];
    assert none + [A.CopyOf(s.rows[x], x, xw)] == [A.CopyOf(s.rows[x], x, xw)];
    Reading(s, t, x, xw);
    Reading(s1, t, y, yw);
    var e := SetThread(s, t, Running([A.CopyOf(s.rows[x], x, xw), A.CopyOf(s.rows[y], y, yw)]));
    assert e.threads == s1.threads[t := e.threads[t]];
    assert [A.CopyOf(s.rows[x], x, xw)] + [A.CopyOf(s.rows[y], y, yw)] == [A.CopyOf(s.rows[x], x, xw), A.CopyOf(s.rows[y], y, yw)];
    assert A.Read(s1, t, y, yw) == e;
    Then(s, s1, e);
  }

  lemma RenewerStarts(s: State) returns (e: State)
    requires Scene(s, IDLE, IDLE, Word(false, 2, 0), Word(false, 3, 0))
    ensures Leads(s, e) && Scene(e, WAITING, IDLE, Word(false, 2, 0), Word(false, 3, 0))
  {
    hide Leads, CommitTs, Filter;
    ReadsBoth(s, 0, 0, false, 1, false);
    TwoReads(RENEWER.rs[0], RENEWER.rs[1]);
    var s1 := SetThread(s, 0, Running(RENEWER.rs));
    var s2 := SetThread(s, 0, Locking(RENEWER, 0));
    var s3 := SetThread(s, 0, Raising(RENEWER, 0));
    var s4 := SetThread(s, 0, Renewing(RENEWER, 0));
    e := SetThread(s, 0, WAITING);
    assert Validate(s1, s2, 0);
    assert AllLocked(s2, s3, 0);
    assert RaiseDone(s3, s4, 0);
    assert Renew(s4, e, 0);
    Once(s1, s2, 0);
    Once(s2, s3, 0);
    Once(s3, s4, 0);
    Once(s4, e, 0);
    Then(s, s1, s2);
    Then(s, s2, s3);
    Then(s, s3, s4);
    Then(s, s4, e);
  }

  /** The third thread has read row 1 and is going to write row 0. */
  const WRITER_READS: Access<Lease> := Access(false, 1, Lease(4, 4), [0], [0])
  const WRITER_WRITES: Access<Lease> := Access(true, 0, Lease(2, 2), [0], [9])
  const WRITING: Thread := Running([WRITER_READS, WRITER_WRITES])

  lemma Changes(s: State, t: nat, a: Access<Lease>, b: Access<Lease>, v: Val) returns (e: State)
    requires t < |s.threads| && s.threads[t] == Running([a, b]) && b.write && |v| == |b.data|
    ensures e == SetThread(s, t, Running([a, b.(data := v)])) && Leads(s, e)
  {
    hide Leads;
    e := SetThread(s, t, Running([a, b.(data := v)]));
    assert [a, b][1 := b.(data := v)] == [a, b.(data := v)];
    assert LocalWrite(s, e, t, 1, v);
    Once(s, e, t);
  }

  lemma WriterStarts(s: State) returns (e: State)
    requires Scene(s, WAITING, IDLE, Word(false, 2, 0), Word(false, 4, 0))
    ensures Leads(s, e) && Scene(e, WAITING, WRITING, Word(false, 2, 0), Word(false, 4, 0))
  {
    hide Leads;
    ReadsBoth(s, 2, 1, false, 0, true);
    var s1 := SetThread(s, 2, Running([A.CopyOf(s.rows[1], 1, false), A.CopyOf(s.rows[0], 0, true)]));
    e := Changes(s1, 2, WRITER_READS, A.CopyOf(s.rows[0], 0, true), [9]);
    Then(s, s1, e);
  }

  const READER_READS: Access<Lease> := Access(false, 0, Lease(2, 2), [0], [0])
  const READER_WRITES: Access<Lease> := Access(true, 1, Lease(4, 4), [0], [7])
  const READER: Job := Job([READER_WRITES], [READER_READS], 5)
  const WRITER: Job := Job([WRITER_WRITES], [WRITER_READS], 4)

  /** The second thread reads row 0, writes row 1 and commits at 5; for that it extends the lease
      on row 0 up to 5. */
  lemma ReaderCommits(s: State) returns (e: State)
    requires Scene(s, WAITING, WRITING, Word(false, 2, 0), Word(false, 4, 0))
    ensures Leads(s, e) && e.log == s.log + [TxnOf(READER)] && e.threads == s.threads
    ensures |e.rows| == 2 && e.rows[0] == s.rows[0].(word := Word(false, 2, 3))
  {
    hide Leads, Insert, TxnOf, Filter, CommitTs, AllNaive;
    ReadsBoth(s, 1, 0, false, 1, true);
    var s1 := SetThread(s, 1, Running([A.CopyOf(s.rows[0], 0, false), A.CopyOf(s.rows[1], 1, true)]));
    var s2 := Changes(s1, 1, READER_READS, A.CopyOf(s.rows[1], 1, true), [7]);
    Pair(READER_READS, READER_WRITES);
    Preparing(s2, 1, READER_WRITES, [READER_READS]);
    var s3 := Prepared(s2, 1, READER_WRITES, [READER_READS]);
    assert s3.threads[1] == Renewing(READER, 0);
    var s4, s5 := SetThread(s3, 1, Swapping(READER, 0, Word(false, 2, 0), Word(false, 2, 3), false)), Extended(s3, 1, READER, 0);
    assert Renew(s3, s4, 1);
    assert s5.threads == s4.threads[1 := s5.threads[1]];
    assert SwapWord(s4, s5, 1);
    Once(s3, s4, 1);
    Once(s4, s5, 1);
    e := Installed(s5, 1, READER_WRITES);
    Installs(s5, 1, READER_WRITES);
    Then(s, s1, s2);
    Then(s, s2, s3);
    Then(s, s3, s4);
    Then(s, s4, s5);
    Then(s, s5, e);
    assert e.threads == s.threads;
  }

  /** The second thread has given row 0 the lease up to 5. */
  function Extended(s: State, t: nat, job: Job, x: nat): State
    requires t < |s.threads| && x < |s.rows|
  {
    SetBoth(s, t, Renewing(job, 1), x, s.rows[x].(word := Word(false, 2, 3)))
  }

  /** The first thread's compare-and-swap has failed; it tries again and takes the lease back to 3. */
  lemma RenewerShortens(s: State) returns (e: State)
    requires |s.threads| == 3 && s.threads[0] == WAITING && |s.rows| == 2 && s.rows[0].word == Word(false, 2, 3)
    ensures Leads(s, e) && e.log == s.log && |e.threads| == 3 && e.threads == s.threads[0 := e.threads[0]]
    ensures e.rows == s.rows[0 := s.rows[0].(word := Word(false, 2, 1))]
  {
    hide Leads;
    var s1 := SetThread(s, 0, Swapping(RENEWER, 0, Word(false, 2, 3), Word(false, 2, 1), false));
    e := SetBoth(s, 0, Renewing(RENEWER, 1), 0, s.rows[0].(word := Word(false, 2, 1)));
    assert Retries(s, s1, 0);
    assert e.threads == s1.threads[0 := e.threads[0]];
    assert SwapWord(s1, e, 0);
    Once(s, s1, 0);
    Once(s1, e, 0);
    Then(s, s1, e);
  }

  /** The third thread finds the lease on row 0 short enough to commit at 4, where the lease of
      the version of row 1 that it has read still reaches. */
  lemma WriterCommits(s: State) returns (e: State)
    requires |s.threads| == 3 && s.threads[2] == WRITING && |s.rows| == 2
    requires s.rows[0].word == Word(false, 2, 1) && s.rows[0].data == [0]
    ensures Leads(s, e) && e.log == s.log + [TxnOf(WRITER)]
  {
    hide Leads, Insert, TxnOf, Filter, CommitTs;
    Pair(WRITER_READS, WRITER_WRITES);
    Preparing(s, 2, WRITER_WRITES, [WRITER_READS]);
    var s1 := Prepared(s, 2, WRITER_WRITES, [WRITER_READS]);
    assert s1.threads[2] == Renewing(WRITER, 0);
    var s2 := SetThread(s1, 2, Renewing(WRITER, 1));
    assert Renew(s1, s2, 2);
    Once(s1, s2, 2);
    e := Installed(s2, 2, WRITER_WRITES);
    Installs(s2, 2, WRITER_WRITES);
    Then(s, s1, s2);
    Then(s, s2, e);
  }

  lemma WholeStory() returns (e: State, log: seq<Txn>)
    ensures Leads(START, e) && AllNaive(log) && e.log == log + [TxnOf(READER), TxnOf(WRITER)]
  {
    hide Leads, TxnOf;
    var s1 := SetUp();
    var s2 := RenewerStarts(s1);
    var s3 := Touch(s2, 1, 1, 3);
    var s4 := WriterStarts(s3);
    log := s4.log;
    var s5 := ReaderCommits(s4);
    var s6 := RenewerShortens(s5);
    e := WriterCommits(s6);
    Then(START, s1, s2);
    Then(START, s2, s3);
    Then(START, s3, s4);
    Then(START, s4, s5);
    Then(START, s5, s6);
    Then(START, s6, e);
  }

  lemma BothNaive()
    ensures Naive(TxnOf(READER)) && Naive(TxnOf(WRITER))
    ensures TxnOf(READER).written == map[1 := [7]] && TxnOf(WRITER).written == map[0 := [9]]
    ensures forall x :: x == 0 || x == 1 ==> x in TxnOf(READER).seen && x in TxnOf(WRITER).seen
  {
    hide Naive, Reads;
    NaiveTxn(READER);
    NaiveTxn(WRITER);
    OneWrite(READER_WRITES);
    OneWrite(WRITER_WRITES);
    assert READER_READS in READER.ws + READER.rs && READER_WRITES in READER.ws + READER.rs;
    assert WRITER_READS in WRITER.ws + WRITER.rs && WRITER_WRITES in WRITER.ws + WRITER.rs;
  }

  /** Some order of the committed transactions explains what they have read. */
  ghost predicate Serializable(log: seq<Txn>) {
    exists order :: multiset(order) == multiset(log) && Replays(DB, order)
  }

  lemma NotSerial(log: seq<Txn>, o: seq<Txn>)
    requires AllNaive(log) && multiset(o) == multiset(log + [TxnOf(READER), TxnOf(WRITER)])
    ensures !Replays(DB, o)
  {
    hide Naive, TxnOf, Replays;
    BothNaive();
    var all := log + [TxnOf(READER), TxnOf(WRITER)];
    assert all[|log|] == TxnOf(READER) && all[|log| + 1] == TxnOf(WRITER);
    forall i | 0 <= i < |o| ensures Naive(o[i]) {
      assert o[i] in multiset(o);
      var j :| 0 <= j < |all| && all[j] == o[i];
    }
    assert TxnOf(READER) in multiset(all) && TxnOf(WRITER) in multiset(all);
    NoOrder(DB, o, TxnOf(READER), TxnOf(WRITER), 1, 0);
  }

  /** With the retry as the source has it, TicToc is not serializable: a run of three threads from
      the start, over two rows, after which no order of the committed transactions explains what
      they have read. */
  lemma RetryBreaksSerializability() returns (run: seq<State>, who: seq<nat>)
    ensures Path(run, who) && Init(run[0], DB) && |run[0].threads| == 3
    ensures !Serializable(run[|run| - 1].log)
  {
    hide LooseStep, TxnOf, Naive, Replays;
    var e, log := WholeStory();
    run, who :| Path(run, who) && run[0] == START && run[|run| - 1] == e;
    forall o | multiset(o) == multiset(e.log) ensures !Replays(DB, o) { NotSerial(log, o); }
  }
}
