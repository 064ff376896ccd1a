/** Runs of one multi-version row that show what the code does not promise. */
module MvccRuns {
  import opened Serial
  import opened Versions
  import opened MvccHistory
  import opened Mvcc

  /** Nothing is pending and nobody waits. */
  ghost predicate AtRest(r: Row) {
    Inv(r) && !r.pending && forall k :: 0 <= k < |r.reqs| ==> !r.reqs[k].valid
  }

  lemma {:induction false} NoNext(q: seq<Req>, ts: nat)
    requires forall k :: 0 <= k < |q| ==> !q[k].valid
    ensures NextPre(q, ts) == UINT64_MAX
  {
    if q != [] { NoNext(q[..|q| - 1], ts); }
  }

  lemma {:induction false} NothingWakes(r: Row, next: nat, minTs: nat, n: nat)
    requires n <= |r.reqs| && forall k :: 0 <= k < |r.reqs| ==> !r.reqs[k].valid
    ensures Wake(r, next, minTs, n) == (r, [])
  {
    var f := (c: Row, i: nat) => WakeOne(c, i, next, minTs);
    NothingLoops(f, r, n);
  }

  lemma {:induction false} NothingLoops(f: (Row, nat) -> (Row, seq<Wakeup>), r: Row, n: nat)
    requires forall i: nat :: i < n ==> f(r, i) == (r, [])
    ensures Loop(f, r, n) == (r, [])
  {
    if n > 0 {
      NothingLoops(f, r, n - 1);
      var none: seq<Wakeup> := [];
      assert none + [] == none;
    }
  }

  /** The row after a transaction at `ts` has reserved the free slot `i`, filled it with `v` and
      committed. */
  function Written(r: Row, i: nat, ts: nat, v: Val): Row
    requires i < |r.slots|
  {
    r.(slots := r.slots[i := Slot(true, true, ts, At(|r.mem|))], mem := r.mem + [v], latestRow := |r.mem|,
       latestWts := ts, numVersions := r.numVersions + 1, preTs := ts, preId := i,
       all := r.all + [Version(ts, v)], used := r.used + {ts})
  }

  /** A write into a slot that has no buffer yet. */
  ghost predicate CanWrite(r: Row, i: nat, ts: nat) {
    && AtRest(r) && FreshTs(r, ts) && ts > r.latestWts && ts > r.maxServed && |r.slots| > 1
    && r.numVersions < |r.slots| && i < |r.slots| && Free(r.slots[i]) && r.slots[i].row.Null?
    && forall j :: 0 <= j < |r.slots| && Free(r.slots[j]) ==> j <= i && r.slots[j].row.Null?
  }

  lemma RoomIs(r: Row, i: nat, ts: nat, minTs: nat)
    requires CanWrite(r, i, ts)
    ensures Room(r.(used := r.used + {ts}), minTs) == (r.(used := r.used + {ts}), i)
  {
    hide Inv;
    var c := Choose(r.slots);
    assert Free(r.slots[i]);
  }

  lemma PrewriteIs(r: Row, i: nat, ts: nat, txn: nat, minTs: nat)
    requires CanWrite(r, i, ts)
    ensures r.slots[i].row.Null? && r.latestRow < |r.mem|
    ensures Prewrite(r, ts, txn, minTs).0 == Place(r.(used := r.used + {ts}), i, ts)
    ensures Prewrite(r, ts, txn, minTs).1 == Ok && Prewrite(r, ts, txn, minTs).2 == |r.mem|
  {
    hide Collect, Room, SlotOk, NoAlias, Ascending;
    RoomIs(r, i, ts, minTs);
  }

  /** Reserving, filling and installing, one after the other. */
  lemma InstallIs(r: Row, i: nat, ts: nat, v: Val)
    requires CanWrite(r, i, ts) && r.latestRow < |r.mem|
    ensures var p := Place(r.(used := r.used + {ts}), i, ts);
            HasBuffer(p) && HasBuffer(Fill(p, v)) && Install(Fill(p, v)) == Written(r, i, ts, v)
  {
    hide Inv;
    var p := Place(r.(used := r.used + {ts}), i, ts);
    assert p.mem[|r.mem| := v] == r.mem + [v];
    assert p.slots[i := Slot(true, true, ts, At(|r.mem|))] == r.slots[i := Slot(true, true, ts, At(|r.mem|))];
  }

  lemma UpdateIs(r: Row, ts: nat, minTs: nat)
    requires forall k :: 0 <= k < |r.reqs| ==> !r.reqs[k].valid
    ensures Update(r, ts, minTs) == (r, [])
  {
    NoNext(r.reqs, ts);
    NothingWakes(r, UINT64_MAX, minTs, |r.reqs|);
  }

  /** The three requests of a transaction that writes the row, one after the other. */
  lemma WriteRun(r: Row, i: nat, ts: nat, txn: nat, minTs: nat, v: Val) returns (p: Row, f: Row)
    requires CanWrite(r, i, ts)
    ensures Step(r, p, PrewriteOp(ts, txn, minTs)) && Step(p, f, FillOp(v))
    ensures Step(f, Written(r, i, ts, v), CommitOp(minTs)) && AtRest(Written(r, i, ts, v))
  {
    hide Inv, Place, Install, Prewrite, Update, Written;
    PrewriteIs(r, i, ts, txn, minTs);
    InstallIs(r, i, ts, v);
    p := Place(r.(used := r.used + {ts}), i, ts);
    f := Fill(p, v);
    WriteStays(r, i, ts, v);
    UpdateIs(Written(r, i, ts, v), ts, minTs);
    NotEmpty(r);
    PlaceIs(r, i, ts, v);
    StepKeeps(r, p, PrewriteOp(ts, txn, minTs));
    StepKeeps(p, f, FillOp(v));
    StepKeeps(f, Written(r, i, ts, v), CommitOp(minTs));
  }

  lemma NotEmpty(r: Row)
    requires Inv(r)
    ensures r.reqs != [] && r.all != []
  {
  }

  lemma PlaceIs(r: Row, i: nat, ts: nat, v: Val)
    requires i < |r.slots| && r.latestRow < |r.mem| && r.slots[i].row.Null?
    ensures var p := Place(r.(used := r.used + {ts}), i, ts);
            p.reqs == r.reqs && p.all == r.all && p.preTs == ts
  {
  }

  lemma WriteStays(r: Row, i: nat, ts: nat, v: Val)
    requires i < |r.slots|
    ensures var w := Written(r, i, ts, v); w.reqs == r.reqs && w.pending == r.pending
  {
  }

  /** The first `n` of four slots have never been used, the others hold versions. */
  ghost predicate Filled(r: Row, n: nat) {
    && n <= |r.slots| == 4 && r.numVersions == 4 - n
    && (forall j :: 0 <= j < n ==> r.slots[j] == EMPTY)
    && (forall j :: n <= j < 4 ==> r.slots[j].valid)
  }

  lemma NextWrite(r: Row, n: nat, ts: nat, v: Val)
    requires AtRest(r) && Filled(r, n + 1) && FreshTs(r, ts) && ts > r.latestWts && ts > r.maxServed
    ensures CanWrite(r, n, ts) && Filled(Written(r, n, ts, v), n)
  {
    hide Inv;
  }

  const FIRST: Row := InitRow([0], 8)
  const SEVEN: Row := Written(FIRST, 3, 7, [7])
  const FIVE: Row := Written(SEVEN, 2, TWO32 + 5, [5])
  const TEN: Row := Written(FIVE, 1, TWO32 + 10, [10])

  lemma ScanGoesWrong(h: seq<Slot>)
    requires h == [EMPTY, Slot(true, true, TWO32 + 10, At(3)), Slot(true, true, TWO32 + 5, At(2)), Slot(true, true, 7, At(1))]
    ensures Scan(h, TWO32 + 8) == 3
  {
    var ts := TWO32 + 8;
    assert h[..1][..0] == [] && h[..2][..1] == h[..1] && h[..3][..2] == h[..2] && h[..4] == h;
    assert Scan(h[..1], ts) == -1;
    assert Scan(h[..2], ts) == -1;
    assert Scan(h[..3], ts) == 2;
  }

  /** The lookup at 2^32 + 8 settles on the version of 7. */
  lemma TenIs()
    ensures TEN.slots == [EMPTY, Slot(true, true, TWO32 + 10, At(3)), Slot(true, true, TWO32 + 5, At(2)), Slot(true, true, 7, At(1))]
    ensures TEN.mem == [[0], [7], [5], [10]] && TEN.oldestWts == 0 && TEN.latestWts == TWO32 + 10
    ensures TEN.all == [Version(0, [0]), Version(7, [7]), Version(TWO32 + 5, [5]), Version(TWO32 + 10, [10])]
    ensures TEN.used == {7, TWO32 + 5, TWO32 + 10}
  {
  }

  /** The three writes, and after each the row is idle. */
  lemma ThreeWrites() returns (a: Row, b: Row, c: Row, d: Row, e: Row, f: Row)
    ensures Step(FIRST, a, PrewriteOp(7, 1, 0)) && Step(a, b, FillOp([7])) && Step(b, SEVEN, CommitOp(0))
    ensures Step(SEVEN, c, PrewriteOp(TWO32 + 5, 2, 0)) && Step(c, d, FillOp([5])) && Step(d, FIVE, CommitOp(0))
    ensures Step(FIVE, e, PrewriteOp(TWO32 + 10, 3, 0)) && Step(e, f, FillOp([10])) && Step(f, TEN, CommitOp(0))
    ensures AtRest(TEN)
  {
    hide Inv, Step, CanWrite;
    InitInv([0], 8);
    assert Filled(FIRST, 4);
    NextWrite(FIRST, 3, 7, [7]);
    a, b := WriteRun(FIRST, 3, 7, 1, 0, [7]);
    NextWrite(SEVEN, 2, TWO32 + 5, [5]);
    c, d := WriteRun(SEVEN, 2, TWO32 + 5, 2, 0, [5]);
    NextWrite(FIVE, 1, TWO32 + 10, [10]);
    e, f := WriteRun(FIVE, 1, TWO32 + 10, 3, 0, [10]);
  }

  /** A lookup that goes wrong, in a run from the start: after commits at 7, 2^32 + 5 and
      2^32 + 10, a read at 2^32 + 8 is given the version of 7. */
  lemma LookupGoesWrong() returns (run: seq<Row>, ops: seq<Op>, buf: nat)
    ensures Run(run, ops, [0], 8) && |run| == 11 && ops[9] == ReadOp(TWO32 + 8, 4)
    ensures run[9].reqs != [] && run[9].all != [] && Read(run[9], TWO32 + 8, 4) == (run[10], Ok, buf)
    ensures run[10].all != [] && Newer(run[10].all, TWO32 + 7) == Version(TWO32 + 5, [5])
    ensures buf < |run[10].mem| && run[10].mem[buf] == [7] == ValueAt(run[10].all, 7)
  {
    hide Step, Inv, Read, Scan, Finds;
    var a, b, c, d, e, f := ThreeWrites();
    TenIs();
    ScanGoesWrong(TEN.slots);
    VersionsAre();
    assert TEN.reqs != [];
    var last;
    last, buf := LastRead();
    run := [FIRST, a, b, SEVEN, c, d, FIVE, e, f, TEN, last];
    ops := [PrewriteOp(7, 1, 0), FillOp([7]), CommitOp(0), PrewriteOp(TWO32 + 5, 2, 0), FillOp([5]), CommitOp(0),
            PrewriteOp(TWO32 + 10, 3, 0), FillOp([10]), CommitOp(0), ReadOp(TWO32 + 8, 4)];
  }

  lemma LastRead() returns (last: Row, buf: nat)
    ensures TEN.reqs != [] && TEN.all != [] && Read(TEN, TWO32 + 8, 4) == (last, Ok, buf)
    ensures Step(TEN, last, ReadOp(TWO32 + 8, 4)) && last.all == TEN.all && last.mem == TEN.mem && buf == 1
  {
    hide Scan, Finds;
    TenIs();
    ScanGoesWrong(TEN.slots);
    last, buf := Read(TEN, TWO32 + 8, 4).0, 1;
  }

  lemma VersionsAre()
    ensures TEN.all != [] && Newer(TEN.all, TWO32 + 7) == Version(TWO32 + 5, [5]) && ValueAt(TEN.all, 7) == [7]
  {
    TenIs();
    var h := TEN.all;
    assert h[..3] == [Version(0, [0]), Version(7, [7]), Version(TWO32 + 5, [5])] && h[..3][..2] == h[..2];
    assert IndexAt(h[..3], TWO32 + 7) == 2;
    assert IndexAt(h[..2], 7) == 1;
    assert IndexAt(h[..3], 7) == 1;
  }
}
