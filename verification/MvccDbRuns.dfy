/** A run of the multi-version database in which a buffer is overwritten under its reader. */
module MvccDbRuns {
  import opened Serial
  import opened Versions
  import opened MvccHistory
  import opened MvccDb
  import opened MvccDbProof
  import opened MvccRuns
  import M = Mvcc

  // ---------------------------------------------------------------- putting runs together

  ghost predicate Path(run: seq<State>, who: seq<nat>) {
    && run != [] && |who| == |run| - 1
    && forall i :: 0 <= i < |who| ==> Step(run[i], run[i + 1], who[i])
  }

  lemma Join(a: seq<State>, wa: seq<nat>, b: seq<State>, wb: seq<nat>) returns (run: seq<State>, who: seq<nat>)
    requires Path(a, wa) && Path(b, wb) && a[|a| - 1] == b[0]
    ensures Path(run, who) && run[0] == a[0] && run[|run| - 1] == b[|b| - 1]
  {
    hide Step;
    run, who := a + b[1..], wa + wb;
    forall i | 0 <= i < |who| ensures Step(run[i], run[i + 1], who[i]) {
      if i < |wa| {
        assert Step(a[i], a[i + 1], wa[i]);
      } else {
        assert Step(b[i - |wa|], b[i - |wa| + 1], wb[i - |wa|]);
        assert run[i] == b[i - |wa|] && run[i + 1] == b[i - |wa| + 1];
      }
    }
  }

  // ---------------------------------------------------------------- a writer that commits

  /** One row, a reader that has it, and three threads with nothing to do. */
  ghost predicate Reading(s: State, r: M.Row, reader: Thread) {
    s.rows == [r] && reader.Running? && s.threads == [reader, Idle, Idle, Idle]
  }

  /** The second thread begins at `ts`, writes the row and commits. */
  lemma WriteTxn(s: State, r: M.Row, reader: Thread, i: nat, ts: nat, v: Val) returns (run: seq<State>, who: seq<nat>)
    requires Reading(s, r, reader) && CanWrite(r, i, ts) && ts !in s.dealt
    ensures Path(run, who) && run[0] == s
    ensures var e := run[|run| - 1]; Reading(e, Written(r, i, ts, v), reader) && e.dealt == s.dealt + {ts}
  {
    hide Step, M.Inv, M.Prewrite, M.Fill, M.Update, M.Install, Written;
    NotEmpty(r);
    PrewriteIs(r, i, ts, 1, 1);
    var (p, _, buf) := M.Prewrite(r, ts, 1, 1);
    InstallIs(r, i, ts, v);
    PlaceIs(r, i, ts, v);
    FillKeepsTs(p, v);
    WriteStays(r, i, ts, v);
    UpdateIs(Written(r, i, ts, v), ts, 1);
    var a := s.(threads := [reader, Running(ts, []), Idle, Idle], dealt := s.dealt + {ts});
    var b := a.(rows := [p], threads := [reader, Running(ts, [Granted(0, true, buf)]), Idle, Idle]);
    var c := b.(rows := [M.Fill(p, v)], threads := [reader, Running(ts, [Dirty(buf)]), Idle, Idle]);
    var d := Committed(c, ts, buf, reader);
    var e := d.(rows := [Written(r, i, ts, v)], threads := [reader, Ending(ts, [], true), Idle, Idle]);
    var f := e.(threads := [reader, Idle, Idle, Idle]);
    FirstHalf(s, a, b, c, r, reader, ts, buf, v);
    SecondHalf(c, d, e, f, M.Fill(p, v), Written(r, i, ts, v), reader, ts, buf);
    run, who := [s, a, b, c, d, e, f], [1, 1, 1, 1, 1, 1];
  }

  lemma FillKeepsTs(p: M.Row, v: Val)
    requires M.HasBuffer(p)
    ensures M.Fill(p, v).preTs == p.preTs
  {
  }

  function Dirty(buf: nat): Access { Granted(0, true, buf).(clean := false) }

  ghost function Committed(c: State, ts: nat, buf: nat, reader: Thread): State {
    var txn := TxnOf(c.rows, ts, [Dirty(buf)]);
    State(c.rows, [reader, Ending(ts, [Dirty(buf)], true), Idle, Idle], c.dealt,
          Insert(c.order, txn), c.log + [txn], c.looked + [[Dirty(buf)]])
  }

  lemma FirstHalf(s: State, a: State, b: State, c: State, r: M.Row, reader: Thread, ts: nat, buf: nat, v: Val)
    requires Reading(s, r, reader) && M.FreshTs(r, ts) && ts !in s.dealt && r.reqs != []
    requires a == s.(threads := [reader, Running(ts, []), Idle, Idle], dealt := s.dealt + {ts})
    requires M.Prewrite(r, ts, 1, 1).1 == M.Ok && M.Prewrite(r, ts, 1, 1).2 == buf && M.HasBuffer(M.Prewrite(r, ts, 1, 1).0)
    requires b == a.(rows := [M.Prewrite(r, ts, 1, 1).0], threads := [reader, Running(ts, [Granted(0, true, buf)]), Idle, Idle])
    requires c == b.(rows := [M.Fill(b.rows[0], v)], threads := [reader, Running(ts, [Dirty(buf)]), Idle, Idle])
    ensures Step(s, a, 1) && Step(a, b, 1) && Step(b, c, 1)
  {
    hide M.Prewrite, M.Fill, M.HasBuffer;
    assert Begin(s, a, 1, ts);
    var acc: seq<Access> := [];
    assert acc + [Granted(0, true, buf)] == [Granted(0, true, buf)];
    assert Prewrite(a, b, 1, 0, 1);
    assert [Granted(0, true, buf)][0 := Dirty(buf)] == [Dirty(buf)];
    assert b.rows[0 := c.rows[0]] == c.rows;
    assert Fill(b, c, 1, 0, v);
  }

  lemma SecondHalf(c: State, d: State, e: State, f: State, p: M.Row, w: M.Row, reader: Thread, ts: nat, buf: nat)
    requires c.rows == [p] && c.threads == [reader, Running(ts, [Dirty(buf)]), Idle, Idle] && reader.Running?
    requires d == Committed(c, ts, buf, reader)
    requires M.HasBuffer(p) && p.preTs == ts && M.Update(M.Install(p), ts, 1) == (w, [])
    requires e == d.(rows := [w], threads := [reader, Ending(ts, [], true), Idle, Idle])
    requires f == e.(threads := [reader, Idle, Idle, Idle])
    ensures Step(c, d, 1) && Step(d, e, 1) && Step(e, f, 1)
  {
    hide M.Update, M.Install, M.HasBuffer, TxnOf, Insert;
    assert Commit(c, d, 1);
    assert [Dirty(buf)][..0] == [];
    assert ReturnWrite(d, e, 1, 1);
    assert Finish(e, f, 1);
  }

  // ---------------------------------------------------------------- the reader

  /** The row after `n` of its four slots are left, while a reader at 1 has its first buffer. */
  ghost predicate Aging(r: M.Row, n: nat, ts: nat, v: Val) {
    && AtRest(r) && Filled(r, n) && r.base == 0 && r.oldestWts == 0 && r.threads == 4
    && r.latestWts <= ts < M.UINT64_MAX && r.maxServed <= ts && (forall u :: u in r.used ==> u <= ts)
    && r.all != [] && Last(r.all).value == v
  }

  ghost predicate Waits(s: State, n: nat, ts: nat, v: Val, reader: Thread) {
    && |s.rows| == 1 && Reading(s, s.rows[0], reader) && Aging(s.rows[0], n, ts, v)
    && forall d :: d in s.dealt ==> d <= ts
  }

  lemma NextTxn(s: State, n: nat, ts: nat, v: Val, w: Val, reader: Thread) returns (run: seq<State>, who: seq<nat>)
    requires Waits(s, n + 1, ts, v, reader) && ts + 1 < M.UINT64_MAX
    ensures Path(run, who) && run[0] == s && Waits(run[|run| - 1], n, ts + 1, w, reader)
  {
    hide Step, M.Inv, CanWrite;
    var r := s.rows[0];
    NextWrite(r, n, ts + 1, w);
    run, who := WriteTxn(s, r, reader, n, ts + 1, w);
    var _, _ := WriteRun(r, n, ts + 1, 1, 1, w);
  }

  lemma FourTxns(s: State, reader: Thread) returns (run: seq<State>, who: seq<nat>)
    requires Waits(s, 4, 1, [0], reader)
    ensures Path(run, who) && run[0] == s && Waits(run[|run| - 1], 0, 5, [5], reader)
  {
    hide Path, Waits;
    PathEnds();
    var a, wa := NextTxn(s, 3, 1, [0], [2], reader);
    var b, wb := NextTxn(a[|a| - 1], 2, 2, [2], [3], reader);
    var c, wc := NextTxn(b[|b| - 1], 1, 3, [3], [4], reader);
    var d, wd := NextTxn(c[|c| - 1], 0, 4, [4], [5], reader);
    run, who := Join(a, wa, b, wb);
    run, who := Join(run, who, c, wc);
    run, who := Join(run, who, d, wd);
  }

  lemma PathEnds()
    ensures forall run, who :: Path(run, who) ==> run != []
  {
  }

  function Reader(looks: seq<Val>): Thread { Running(1, [Granted(0, false, 0).(looks := looks)]) }

  /** The beginning: the reader gets the row and looks at it once. */
  lemma FirstLook() returns (run: seq<State>, who: seq<nat>)
    ensures Path(run, who) && Init(run[0], [[0]], 4)
    ensures Waits(run[|run| - 1], 4, 1, [0], Reader([[0]]))
  {
    hide Step, M.Inv;
    var r := M.InitRow([0], 4);
    var r' := M.Read(r, 1, 0).0;
    var s := State([r], [Idle, Idle, Idle, Idle], {}, [], [], []);
    var a := State([r], [Running(1, []), Idle, Idle, Idle], {1}, [], [], []);
    var b := State([r'], [Reader([]), Idle, Idle, Idle], {1}, [], [], []);
    var c := State([r'], [Reader([[0]]), Idle, Idle, Idle], {1}, [], [], []);
    M.InitInv([0], 4);
    M.ReadKeeps(r, 1, 0);
    FirstSteps(s, a, b, c);
    run, who := [s, a, b, c], [0, 0, 0];
  }

  lemma LooksAgain(b: State, c: State, looks: seq<Val>, v: Val, more: seq<Val>)
    requires |b.threads| == 4 && b.threads[0] == Reader(looks) && |b.rows| == 1 && Contents(b.rows[0], 0) == v
    requires more == looks + [v] && c == b.(threads := b.threads[0 := Reader(more)])
    ensures Look(b, c, 0, 0)
  {
    var a := Granted(0, false, 0).(looks := looks);
    assert [a][0 := a.(looks := more)] == [a.(looks := more)];
  }

  lemma FirstSteps(s: State, a: State, b: State, c: State)
    requires var r := M.InitRow([0], 4);
      && s == State([r], [Idle, Idle, Idle, Idle], {}, [], [], [])
      && a == State([r], [Running(1, []), Idle, Idle, Idle], {1}, [], [], [])
      && b == State([M.Read(r, 1, 0).0], [Reader([]), Idle, Idle, Idle], {1}, [], [], [])
      && c == b.(threads := [Reader([[0]]), Idle, Idle, Idle])
    ensures Step(s, a, 0) && Step(a, b, 0) && Step(b, c, 0)
  {
    assert Begin(s, a, 0, 1);
    var acc: seq<Access> := [];
    assert acc + [Granted(0, false, 0)] == [Granted(0, false, 0)];
    assert Read(a, b, 0, 0);
    assert c.threads == b.threads[0 := Reader([[0]])];
    LooksAgain(b, c, [], [0], [[0]]);
  }

  /** When the four slots are full, the next write of a younger transaction takes the buffer the
      reader looks through, although the smallest active timestamp is the reader's own. */
  lemma Overwritten(r: M.Row)
    requires Aging(r, 0, 5, [5]) && r.reqs != []
    ensures var (p, code, buf) := M.Prewrite(r, 6, 1, 1);
            code == M.Ok && p.mem != [] && p.mem[0] == [5] && p.oldestWts > 0
  {
    hide M.StoreOk, M.PendingOk, M.ReadsOk, M.ReqsOk, M.UsedOk, M.Promote, M.Holds;
    var u := r.(used := r.used + {6});
    M.UseKeeps(r, 6);
    assert M.Collect(u, 1) == u;
    M.EvictOverwrites(u, 6, 1);
  }

  /** The end: another write begins, the reader looks again and commits. */
  lemma SecondLook(s: State) returns (run: seq<State>, who: seq<nat>)
    requires Waits(s, 0, 5, [5], Reader([[0]]))
    ensures Path(run, who) && run[0] == s
    ensures var e := run[|run| - 1];
            |e.looked| > 0 && |e.log| > 0 && e.looked[|e.looked| - 1] == Reader([[0], [5]]).acc
  {
    hide Step, M.Prewrite, AtRest, Filled;
    var r := s.rows[0];
    NotEmptyAtRest(r);
    Overwritten(r);
    var (p, _, buf) := M.Prewrite(r, 6, 1, 1);
    var writer := Running(6, [Granted(0, true, buf)]);
    var a := s.(threads := [Reader([[0]]), Running(6, []), Idle, Idle], dealt := s.dealt + {6});
    var b := a.(rows := [p], threads := [Reader([[0]]), writer, Idle, Idle]);
    var c := b.(threads := [Reader([[0], [5]]), writer, Idle, Idle]);
    var acc := Reader([[0], [5]]).acc;
    var txn := TxnOf(c.rows, 1, acc);
    var d := State(c.rows, [Ending(1, acc, true), writer, Idle, Idle], c.dealt, Insert(c.order, txn), c.log + [txn], c.looked + [acc]);
    LastSteps(s, a, b, c, d, r, buf);
    run, who := [s, a, b, c, d], [1, 1, 0, 0];
  }

  lemma NotEmptyAtRest(r: M.Row)
    requires AtRest(r)
    ensures r.reqs != [] && r.all != []
  {
    NotEmpty(r);
  }

  lemma LastSteps(s: State, a: State, b: State, c: State, d: State, r: M.Row, buf: nat)
    requires Reading(s, r, Reader([[0]])) && r.reqs != [] && 6 !in s.dealt
    requires var (p, code, it) := M.Prewrite(r, 6, 1, 1);
      && code == M.Ok && it == buf && p.mem != [] && p.mem[0] == [5]
      && a == s.(threads := [Reader([[0]]), Running(6, []), Idle, Idle], dealt := s.dealt + {6})
      && b == a.(rows := [p], threads := [Reader([[0]]), Running(6, [Granted(0, true, buf)]), Idle, Idle])
      && c == b.(threads := [Reader([[0], [5]]), Running(6, [Granted(0, true, buf)]), Idle, Idle])
    requires var acc := Reader([[0], [5]]).acc;
      var txn := TxnOf(c.rows, 1, acc);
      d == State(c.rows, [Ending(1, acc, true), c.threads[1], Idle, Idle], c.dealt,
                 Insert(c.order, txn), c.log + [txn], c.looked + [acc])
    ensures Step(s, a, 1) && Step(a, b, 1) && Step(b, c, 0) && Step(c, d, 0)
  {
    hide M.Prewrite, TxnOf, Insert;
    assert Begin(s, a, 1, 6);
    var acc: seq<Access> := [];
    assert acc + [Granted(0, true, buf)] == [Granted(0, true, buf)];
    assert Prewrite(a, b, 1, 0, 1);
    assert c.threads == b.threads[0 := Reader([[0], [5]])];
    LooksAgain(b, c, [[0]], [5], [[0], [5]]);
    assert Commit(c, d, 0);
  }

  /** The value a reader looks at can change under it, in a run from the start: after four
      commits have filled the row's slots, a fifth write takes the buffer of the first version,
      which a read at 1 still looks through, and the two looks of that committed transaction
      show different values.  No serial order explains that. */
  lemma ReaderIsOverwritten() returns (run: seq<State>, who: seq<nat>)
    ensures Run(run, who, [[0]], 4)
    ensures var e := run[|run| - 1];
      && |e.looked| > 0 && e.looked[|e.looked| - 1] == [Access(0, false, 0, true, [[0], [5]])]
      && !SerialOutcome(e, [[0]])
  {
    hide Step, Init, Waits, Replays, Sorted;
    PathEnds();
    var a, wa := FirstLook();
    var b, wb := FourTxns(a[|a| - 1], Reader([[0]]));
    var c, wc := SecondLook(b[|b| - 1]);
    run, who := Join(a, wa, b, wb);
    run, who := Join(run, who, c, wc);
    var e := run[|run| - 1];
    if LogOk(e.log, e.looked) { TwoValues(e.log[|e.log| - 1], e.looked[|e.looked| - 1]); }
  }

  lemma TwoValues(u: Txn, acc: seq<Access>)
    requires acc == [Access(0, false, 0, true, [[0], [5]])]
    ensures !Saw(u, acc)
  {
    assert acc[0].looks[0] != acc[0].looks[1];
  }
}
