/** What every run of the multi-version database keeps, whatever the transactions see: who owns
    the pending writes, who waits for whom, and that somebody can always go on. */
module MvccDbSys {
  import opened Serial
  import opened Versions
  import opened MvccDb
  import H = MvccHistory
  import M = Mvcc

  // ---------------------------------------------------------------- rows

  /** No write before `ts` can be accepted on the row any more, other than the pending one. */
  ghost predicate Settled(r: M.Row, ts: nat) {
    ts <= r.latestWts || ts <= r.maxServed
  }

  /** The buffer reserved for the pending write. */
  function Reserved(r: M.Row): H.Ref {
    if r.preId < |r.slots| then r.slots[r.preId].row else H.Null
  }

  ghost predicate SamePending(r: M.Row, r': M.Row) {
    r'.pending && r'.preTs == r.preTs && Reserved(r') == Reserved(r) && Buffer(r') == Buffer(r)
  }

  /** What a row may do as seen by a transaction at `ts` that is not the one acting on it. */
  ghost predicate Evolves(r: M.Row, r': M.Row, ts: nat) {
    && r.all != [] && r'.all != [] && r.served <= r'.served
    && (Settled(r, ts) ==> Settled(r', ts) && (ts > 0 ==> M.Newer(r'.all, ts - 1) == M.Newer(r.all, ts - 1)))
    && (r.pending && r.preTs == ts ==> SamePending(r, r') && r'.all == r.all)
    && (ts in r'.used ==> ts in r.used)
    && (forall k :: 0 <= k < |r'.all| && r'.all[k].ts == ts ==> exists j :: 0 <= j < |r.all| && r.all[j].ts == ts)
  }

  /** What the answer to a request says about the row before, `r`, and after, `c`. */
  ghost predicate Answer(r: M.Row, c: M.Row, t: nat, ts: nat, write: bool, code: M.Code, buf: nat) {
    && M.Inv(c) && c.used == r.used + {ts} && c.all == r.all && r.all != [] && ts > 0 && r.served <= c.served
    && c.latestWts == r.latestWts && r.maxServed <= c.maxServed
    && (r.pending ==> SamePending(r, c))
    && (c.pending && !r.pending ==> write && code == M.Ok && c.preTs == ts)
    && (code == M.Ok ==>
          if write then c.pending && c.preTs == ts && Reserved(c) == H.At(buf) && Buffer(c) == Last(r.all).value
          else Settled(c, ts))
    && M.Live(c.reqs) == M.Live(r.reqs) +
         (if code == M.Wait then multiset{M.Req(true, if write then M.P else M.R, ts, t)} else multiset{})
  }

  lemma ReadAnswers(r: M.Row, ts: nat, txn: nat)
    requires M.Inv(r) && M.FreshTs(r, ts) && r.reqs != [] && r.all != []
    ensures var (c, code, buf) := M.Read(r, ts, txn); Answer(r, c, txn, ts, false, code, buf)
  {
    hide M.Inv, M.Live, M.OldRow, H.Finds, M.Holds, M.Enqueue, M.Newer, ValueAt;
    M.ReadKeeps(r, ts, txn);
  }

  lemma PrewriteAnswers(r: M.Row, ts: nat, txn: nat, minTs: nat)
    requires M.Inv(r) && M.FreshTs(r, ts) && r.reqs != [] && r.all != []
    ensures var (c, code, buf) := M.Prewrite(r, ts, txn, minTs); Answer(r, c, txn, ts, true, code, buf)
  {
    hide M.Inv, M.Live, M.Promote;
    M.PrewriteKeeps(r, ts, txn, minTs);
    PreIsThere(M.Prewrite(r, ts, txn, minTs).0);
    if !r.pending && ts >= r.latestWts && ts >= r.maxServed { PromotedIs(r, ts, minTs); }
  }

  lemma PreIsThere(r: M.Row)
    requires M.Inv(r)
    ensures r.pending ==> r.preId < |r.slots|
  {
  }

  lemma PromotedIs(r: M.Row, ts: nat, minTs: nat)
    requires M.Inv(r) && M.FreshTs(r, ts) && !r.pending && ts >= r.latestWts && ts >= r.maxServed
    ensures var u := r.(used := r.used + {ts});
      var p := M.Promote(u, ts, minTs).0;
      p.used == u.used && p.latestWts == r.latestWts && p.maxServed == r.maxServed && p.served == r.served
  {
    hide M.StoreOk, M.PendingOk, M.ReadsOk, M.UsedOk, M.ReqsOk, M.Promote;
    M.UseKeeps(r, ts);
    TsIsNew(r, ts);
    M.PromoteKeeps(r.(used := r.used + {ts}), ts, minTs);
  }

  lemma TsIsNew(r: M.Row, ts: nat)
    requires M.Inv(r) && M.FreshTs(r, ts)
    ensures ts != r.latestWts && ts != r.maxServed
  {
    M.LatestUsed(r);
  }

  lemma AnswerEvolves(r: M.Row, c: M.Row, t: nat, ts: nat, write: bool, code: M.Code, buf: nat, u: nat)
    requires Answer(r, c, t, ts, write, code, buf) && u != ts
    ensures Evolves(r, c, u)
  {
    hide M.Inv, M.Live, Buffer, Reserved;
  }

  /** What the return of a written row by a transaction makes of it, and whom it wakes. */
  ghost predicate Left(r: M.Row, commit: bool, d: M.Row, ws: seq<M.Wakeup>) {
    && M.Inv(d) && d.used == r.used
    && d.all == (if commit then r.all + [Version(r.preTs, Buffer(r))] else r.all)
    && r.latestWts <= d.latestWts && r.maxServed <= d.maxServed && r.served <= d.served
    && M.GotRight(d, ws)
    && (forall q :: q in M.Live(d.reqs) ==> q in M.Live(r.reqs) && d.pending && q.ts > d.preTs)
    && (forall i :: 0 <= i < |ws| ==> ws[i].req in M.Live(r.reqs))
    && (forall q :: q in M.Live(r.reqs) ==> q in M.Live(d.reqs) || exists i :: 0 <= i < |ws| && ws[i].req == q)
    && (d.pending ==> exists i :: 0 <= i < |ws| && ws[i].req.kind == M.P && ws[i].req.ts == d.preTs)
  }

  /** Installing or dropping the pending write leaves the row ready for update_buffer. */
  lemma ReturnFinishes(r: M.Row, commit: bool)
    requires M.Inv(r) && M.HasBuffer(r)
    ensures var f := if commit then M.Install(r) else M.Drop(r);
      && M.Finished(f, r.preTs) && f.reqs == r.reqs && f.used == r.used && f.maxServed == r.maxServed && f.served == r.served
      && r.latestWts <= f.latestWts
      && f.all == (if commit then r.all + [Version(r.preTs, Buffer(r))] else r.all)
  {
    hide M.Finished, M.ReadsOk, M.UsedOk, M.StoreOk, M.ReqsOk;
    if commit { M.InstallKeeps(r); } else { M.DropKeeps(r); }
  }

  /** What update_buffer answers, as far as the waiting transactions are concerned. */
  ghost predicate Settles(reqs: seq<M.Req>, d: M.Row, ws: seq<M.Wakeup>) {
    && (forall q :: q in M.Live(d.reqs) ==> q in M.Live(reqs) && d.pending && q.ts > d.preTs)
    && (forall i :: 0 <= i < |ws| ==> ws[i].req in M.Live(reqs))
    && (forall q :: q in M.Live(reqs) ==> q in M.Live(d.reqs) || exists i :: 0 <= i < |ws| && ws[i].req == q)
    && (d.pending ==> exists i :: 0 <= i < |ws| && ws[i].req.kind == M.P && ws[i].req.ts == d.preTs)
  }

  lemma UpdateSettles(f: M.Row, ts: nat, d: M.Row, ws: seq<M.Wakeup>)
    requires f.reqs != [] && M.Inv(d) && M.Live(d.reqs) + M.Woken(ws) == M.Live(f.reqs)
    requires forall q :: q in M.Live(d.reqs) <==> q in M.Live(f.reqs) && q.ts > M.NextPre(f.reqs, ts)
    requires d.pending <==> M.NextPre(f.reqs, ts) < M.UINT64_MAX
    requires d.pending ==> d.preTs == M.NextPre(f.reqs, ts)
    ensures Settles(f.reqs, d, ws)
  {
    hide M.Inv, M.Live, M.Woken;
    forall q | q in M.Live(d.reqs) ensures q in M.Live(f.reqs) && d.pending && q.ts > d.preTs { WaitsForPending(d, q); }
    forall i | 0 <= i < |ws| ensures ws[i].req in M.Live(f.reqs) { WokenIs(ws, ws[i].req); LiveOrWoken(f.reqs, d, ws, ws[i].req); }
    forall q | q in M.Live(f.reqs) ensures q in M.Live(d.reqs) || exists i :: 0 <= i < |ws| && ws[i].req == q {
      WokenIs(ws, q);
      LiveOrWoken(f.reqs, d, ws, q);
    }
    if d.pending { PromotedWaited(f, ts, d, ws); }
  }

  lemma LiveOrWoken(reqs: seq<M.Req>, d: M.Row, ws: seq<M.Wakeup>, q: M.Req)
    requires M.Live(d.reqs) + M.Woken(ws) == M.Live(reqs)
    ensures q in M.Live(reqs) <==> q in M.Live(d.reqs) || q in M.Woken(ws)
  {
    hide M.Live, M.Woken;
    assert M.Live(d.reqs)[q] + M.Woken(ws)[q] == M.Live(reqs)[q];
  }

  lemma PromotedWaited(f: M.Row, ts: nat, d: M.Row, ws: seq<M.Wakeup>)
    requires f.reqs != [] && M.Live(d.reqs) + M.Woken(ws) == M.Live(f.reqs)
    requires forall q :: q in M.Live(d.reqs) ==> q.ts > M.NextPre(f.reqs, ts)
    requires M.NextPre(f.reqs, ts) < M.UINT64_MAX
    ensures exists i :: 0 <= i < |ws| && ws[i].req.kind == M.P && ws[i].req.ts == M.NextPre(f.reqs, ts)
  {
    hide M.Live, M.Woken;
    var next := M.NextPre(f.reqs, ts);
    var k :| 0 <= k < |f.reqs| && f.reqs[k].valid && f.reqs[k].kind == M.P && f.reqs[k].ts == next;
    M.LiveHas(f.reqs, f.reqs[k]);
    LiveOrWoken(f.reqs, d, ws, f.reqs[k]);
    WokenIs(ws, f.reqs[k]);
  }

  lemma {:induction false} WokenIs(ws: seq<M.Wakeup>, q: M.Req)
    ensures q in M.Woken(ws) <==> exists i :: 0 <= i < |ws| && ws[i].req == q
  {
    if ws != [] {
      var n := |ws| - 1;
      WokenIs(ws[..n], q);
      if i :| 0 <= i < |ws| && ws[i].req == q {
        if i < n { assert ws[..n][i].req == q; }
      }
      if i :| 0 <= i < |ws[..n]| && ws[..n][i].req == q { assert ws[i].req == q; }
    }
  }

  /** Returning a written row: a commit adds exactly its version, a rollback none, and who is
      answered gets what it asked for. */
  lemma LeavesRow(r: M.Row, commit: bool, minTs: nat)
    requires M.Inv(r) && M.HasBuffer(r)
    ensures var (d, ws) := M.Update(if commit then M.Install(r) else M.Drop(r), r.preTs, minTs);
            Left(r, commit, d, ws)
  {
    hide M.Update, M.Inv, M.GotRight, M.Install, M.Drop, M.Live, M.Woken, Buffer, M.Finished;
    var f := if commit then M.Install(r) else M.Drop(r);
    var (d, ws) := M.Update(f, r.preTs, minTs);
    HasVersion(r);
    ReturnFinishes(r, commit);
    M.UpdateKeeps(f, r.preTs, minTs);
    UpdateSettles(f, r.preTs, d, ws);
    LatestGrows(f, d);
  }

  lemma LatestGrows(f: M.Row, d: M.Row)
    requires M.Inv(d) && f.all == d.all && exists ts :: M.Finished(f, ts)
    ensures f.latestWts == d.latestWts
  {
  }

  lemma WaitsForPending(d: M.Row, q: M.Req)
    requires M.Inv(d) && q in M.Live(d.reqs)
    ensures d.pending
  {
    M.LiveHas(d.reqs, q);
  }

  lemma HasVersion(r: M.Row)
    requires M.Inv(r)
    ensures r.all != [] && r.reqs != []
  {
  }

  lemma ReturnEvolves(r: M.Row, d: M.Row, v: Version, u: nat)
    requires M.Inv(r) && r.pending && v.ts == r.preTs && u != r.preTs
    requires d.all == r.all || d.all == r.all + [v]
    requires d.used == r.used && r.served <= d.served && d.all != [] && r.latestWts <= d.latestWts && r.maxServed <= d.maxServed
    ensures Evolves(r, d, u)
  {
    if Settled(r, u) && u > 0 { M.AppendIndex(r.all, v, u - 1); }
  }

  // ---------------------------------------------------------------- the invariant

  ghost predicate Owned(threads: seq<Thread>, x: nat, ts: nat) {
    exists t, k :: 0 <= t < |threads| && !threads[t].Idle? && threads[t].ts == ts
                   && 0 <= k < |threads[t].acc| && threads[t].acc[k].row == x && threads[t].acc[k].write
  }

  ghost predicate Asked(threads: seq<Thread>, x: nat, q: M.Req) {
    && q.txn < |threads|
    && var th := threads[q.txn];
    && th.Waiting? && th.ts == q.ts && th.row == x && (th.write <==> q.kind == M.P)
  }

  ghost predicate RowOk(threads: seq<Thread>, dealt: set<nat>, x: nat, r: M.Row) {
    && M.Inv(r) && r.used <= dealt
    && (r.pending ==> Owned(threads, x, r.preTs))
    && (forall q :: q in M.Live(r.reqs) ==> Asked(threads, x, q))
  }

  ghost predicate AccOk(rows: seq<M.Row>, ts: nat, a: Access) {
    && a.row < |rows|
    && var r := rows[a.row];
    && r.all != [] && ts > 0
    && if a.write then r.pending && r.preTs == ts && Reserved(r) == H.At(a.buf) && (a.clean ==> Buffer(r) == Last(r.all).value)
       else Settled(r, ts)
  }

  /** The transaction's own timestamp is on no row but those it has asked. */
  ghost predicate FreshOn(rows: seq<M.Row>, th: Thread)
    requires !th.Idle?
  {
    th.Running? || th.Waiting? ==>
      forall x :: 0 <= x < |rows| && th.ts in rows[x].used ==> Touches(th.acc, x) || (th.Waiting? && th.row == x)
  }

  ghost predicate NoVersion(rows: seq<M.Row>, ts: nat) {
    forall x, k :: 0 <= x < |rows| && 0 <= k < |rows[x].all| ==> rows[x].all[k].ts != ts
  }

  predicate Committed(th: Thread) { th.Ending? && th.commit }

  ghost predicate ThreadOk(s: State, th: Thread) {
    !th.Idle? ==>
      && th.ts in s.dealt && th.ts > 0
      && (forall k :: 0 <= k < |th.acc| ==> AccOk(s.rows, th.ts, th.acc[k]))
      && (forall j, k :: 0 <= j < k < |th.acc| ==> th.acc[j].row != th.acc[k].row)
      && (th.Waiting? ==> th.row < |s.rows| && !Touches(th.acc, th.row))
      && FreshOn(s.rows, th)
      && (!Committed(th) ==> NoVersion(s.rows, th.ts))
  }

  ghost predicate Unique(s: State) {
    && (forall t, u :: 0 <= t < u < |s.threads| && !s.threads[t].Idle? && !s.threads[u].Idle? ==> s.threads[t].ts != s.threads[u].ts)
    && (forall d :: d in s.dealt ==> 0 < d < M.UINT64_MAX)
  }

  ghost predicate Sys(s: State) {
    && Unique(s)
    && (forall x :: 0 <= x < |s.rows| ==> RowOk(s.threads, s.dealt, x, s.rows[x]))
    && (forall t :: 0 <= t < |s.threads| ==> ThreadOk(s, s.threads[t]))
  }

  // ---------------------------------------------------------------- framing

  /** A thread that is not acting stays right when the rows evolve. */
  lemma ThreadStays(s: State, s': State, th: Thread)
    requires ThreadOk(s, th) && |s'.rows| == |s.rows| && s.dealt <= s'.dealt
    requires !th.Idle? ==> forall x :: 0 <= x < |s.rows| ==> Evolves(s.rows[x], s'.rows[x], th.ts)
    ensures ThreadOk(s', th)
  {
    if !th.Idle? {
      forall k | 0 <= k < |th.acc| ensures AccOk(s'.rows, th.ts, th.acc[k]) {
        assert AccOk(s.rows, th.ts, th.acc[k]);
        assert Evolves(s.rows[th.acc[k].row], s'.rows[th.acc[k].row], th.ts);
      }
      if !Committed(th) {
        forall x, k | 0 <= x < |s'.rows| && 0 <= k < |s'.rows[x].all| ensures s'.rows[x].all[k].ts != th.ts {
          assert Evolves(s.rows[x], s'.rows[x], th.ts);
        }
      }
      assert FreshOn(s'.rows, th) by {
        forall x | 0 <= x < |s.rows| && th.ts in s'.rows[x].used ensures th.ts in s.rows[x].used {
          assert Evolves(s.rows[x], s'.rows[x], th.ts);
        }
      }
    }
  }

  lemma SameEvolves(r: M.Row, ts: nat)
    requires r.all != []
    ensures Evolves(r, r, ts)
  {
  }

  /** A step of one thread that changes no row and takes neither a write access nor a request
      away. */
  lemma ThreadMoves(s: State, s': State, t: nat)
    requires Sys(s) && t < |s.threads|
    requires s'.rows == s.rows && |s'.threads| == |s.threads| && s'.threads == s.threads[t := s'.threads[t]]
    requires s.dealt <= s'.dealt && Unique(s') && ThreadOk(s', s'.threads[t])
    requires !s.threads[t].Waiting?
    requires !s.threads[t].Idle? ==> forall k :: 0 <= k < |s.threads[t].acc| && s.threads[t].acc[k].write ==>
               !s'.threads[t].Idle? && s'.threads[t].ts == s.threads[t].ts && k < |s'.threads[t].acc| && s'.threads[t].acc[k] == s.threads[t].acc[k]
    ensures Sys(s')
  {
    hide M.Inv, M.Live, AccOk, FreshOn, NoVersion, Evolves, Unique;
    forall x | 0 <= x < |s'.rows| ensures RowOk(s'.threads, s'.dealt, x, s'.rows[x]) {
      var r := s.rows[x];
      assert RowOk(s.threads, s.dealt, x, r);
      if r.pending {
        var u, k :| 0 <= u < |s.threads| && !s.threads[u].Idle? && s.threads[u].ts == r.preTs
                    && 0 <= k < |s.threads[u].acc| && s.threads[u].acc[k].row == x && s.threads[u].acc[k].write;
        assert s'.threads[u].acc[k].row == x;
      }
      forall q | q in M.Live(r.reqs) ensures Asked(s'.threads, x, q) { assert Asked(s.threads, x, q); }
    }
    forall u | 0 <= u < |s'.threads| ensures ThreadOk(s', s'.threads[u]) {
      if u != t {
        assert ThreadOk(s, s.threads[u]);
        forall x | 0 <= x < |s.rows| && !s.threads[u].Idle? ensures Evolves(s.rows[x], s'.rows[x], s.threads[u].ts) {
          assert RowOk(s.threads, s.dealt, x, s.rows[x]);
          HasVersion(s.rows[x]);
          SameEvolves(s.rows[x], s.threads[u].ts);
        }
        ThreadStays(s, s', s.threads[u]);
      }
    }
  }

  // ---------------------------------------------------------------- steps that change no row

  lemma BeginKeeps(s: State, s': State, t: nat, ts: nat)
    requires Sys(s) && Begin(s, s', t, ts)
    ensures Sys(s')
  {
    forall x, k | 0 <= x < |s.rows| && 0 <= k < |s.rows[x].all| ensures s.rows[x].all[k].ts != ts {
      assert RowOk(s.threads, s.dealt, x, s.rows[x]);
    }
    forall x | 0 <= x < |s.rows| ensures ts !in s.rows[x].used { assert RowOk(s.threads, s.dealt, x, s.rows[x]); }
    forall u | 0 <= u < |s.threads| && !s.threads[u].Idle? ensures s.threads[u].ts != ts { assert ThreadOk(s, s.threads[u]); }
    ThreadMoves(s, s', t);
  }

  lemma RollbackKeeps(s: State, s': State, t: nat)
    requires Sys(s) && Rollback(s, s', t)
    ensures Sys(s')
  {
    assert ThreadOk(s, s.threads[t]);
    ThreadMoves(s, s', t);
  }

  lemma ReturnReadKeeps(s: State, s': State, t: nat)
    requires Sys(s) && ReturnRead(s, s', t)
    ensures Sys(s')
  {
    hide RowOk, AccOk;
    var th, th' := s.threads[t], s'.threads[t];
    assert ThreadOk(s, th);
    forall k | 0 <= k < |th'.acc| ensures AccOk(s'.rows, th'.ts, th'.acc[k]) { assert th'.acc[k] == th.acc[k]; }
    ThreadMoves(s, s', t);
  }

  lemma CommitKeeps(s: State, s': State, t: nat)
    requires Sys(s) && Commit(s, s', t)
    ensures Sys(s')
  {
    hide TxnOf, Insert;
    assert ThreadOk(s, s.threads[t]);
    ThreadMoves(s, s', t);
  }

  lemma FinishKeeps(s: State, s': State, t: nat)
    requires Sys(s) && Finish(s, s', t)
    ensures Sys(s')
  {
    ThreadMoves(s, s', t);
  }

  // ---------------------------------------------------------------- the transaction body

  /** Everything but the looks and the own changes of a buffer stays. */
  ghost predicate SameAccess(a: Access, b: Access) {
    b.row == a.row && b.write == a.write && b.buf == a.buf
  }

  /** The transaction body changes one of its accesses, and possibly the buffer behind it. */
  ghost predicate Works(s: State, s': State, t: nat, k: nat, b: Access) {
    && t < |s.threads| && s.threads[t].Running? && k < |s.threads[t].acc|
    && var th := s.threads[t];
    && SameAccess(th.acc[k], b) && b.row < |s.rows| == |s'.rows|
    && s' == SetBoth(s, t, Running(th.ts, th.acc[k := b]), b.row, s'.rows[b.row])
    && WorksOn(s.rows[b.row], s'.rows[b.row])
    && AccOk(s'.rows, th.ts, b)
    && (s'.rows[b.row] == s.rows[b.row] || (s.rows[b.row].pending && s.rows[b.row].preTs == th.ts))
  }

  /** Only the buffer of the pending write has changed. */
  ghost predicate WorksOn(r: M.Row, r': M.Row) {
    M.Inv(r') && r' == r.(mem := r'.mem)
  }

  lemma LookWorks(s: State, s': State, t: nat, k: nat) returns (b: Access)
    requires Sys(s) && Look(s, s', t, k)
    ensures Works(s, s', t, k, b)
    ensures b == s.threads[t].acc[k].(looks := b.looks) && s'.rows == s.rows && b.row < |s.rows|
    ensures b.looks == s.threads[t].acc[k].looks + [Contents(s.rows[b.row], b.buf)]
  {
    hide M.Inv, M.Live, Owned, FreshOn, NoVersion;
    var th := s.threads[t];
    assert ThreadOk(s, th) && AccOk(s.rows, th.ts, th.acc[k]) && RowOk(s.threads, s.dealt, th.acc[k].row, s.rows[th.acc[k].row]);
    b := s'.threads[t].acc[k];
    assert s.rows[b.row := s.rows[b.row]] == s.rows;
  }

  lemma FillWorks(s: State, s': State, t: nat, k: nat, v: Val) returns (b: Access)
    requires Sys(s) && Fill(s, s', t, k, v)
    ensures Works(s, s', t, k, b) && b == s.threads[t].acc[k].(clean := false)
    ensures b.row < |s.rows| && s.rows[b.row].pending && s.rows[b.row].preTs == s.threads[t].ts
  {
    hide M.Inv, M.Live, Owned, FreshOn, NoVersion;
    var th := s.threads[t];
    assert ThreadOk(s, th) && AccOk(s.rows, th.ts, th.acc[k]) && RowOk(s.threads, s.dealt, th.acc[k].row, s.rows[th.acc[k].row]);
    b := th.acc[k].(clean := false);
    M.FillKeeps(s.rows[b.row], v);
  }

  lemma WorksEvolves(s: State, s': State, t: nat, k: nat, b: Access, u: nat, y: nat)
    requires Sys(s) && Works(s, s', t, k, b) && y < |s.rows| && u != s.threads[t].ts
    ensures Evolves(s.rows[y], s'.rows[y], u)
  {
    hide M.Live, Owned, ThreadOk, M.StoreOk;
    assert RowOk(s.threads, s.dealt, y, s.rows[y]);
    HasVersion(s.rows[y]);
  }

  lemma WorksRow(s: State, s': State, t: nat, k: nat, b: Access, y: nat)
    requires Sys(s) && Works(s, s', t, k, b) && y < |s.rows|
    ensures RowOk(s'.threads, s'.dealt, y, s'.rows[y])
  {
    hide M.Inv, M.Live, ThreadOk, Unique, AccOk;
    var r := s.rows[y];
    assert RowOk(s.threads, s.dealt, y, r);
    if r.pending {
      var u, j :| 0 <= u < |s.threads| && !s.threads[u].Idle? && s.threads[u].ts == r.preTs
                  && 0 <= j < |s.threads[u].acc| && s.threads[u].acc[j].row == y && s.threads[u].acc[j].write;
      assert s'.threads[u].acc[j].row == y && s'.threads[u].acc[j].write;
    }
    forall q | q in M.Live(r.reqs) ensures Asked(s'.threads, y, q) { assert Asked(s.threads, y, q); }
  }

  lemma WorkerOk(s: State, s': State, t: nat, k: nat, b: Access)
    requires Sys(s) && Works(s, s', t, k, b)
    ensures ThreadOk(s', s'.threads[t])
  {
    hide M.Inv, M.Live, RowOk, Unique, Settled, Buffer, Reserved;
    var th, th' := s.threads[t], s'.threads[t];
    assert ThreadOk(s, th);
    forall j | 0 <= j < |th.acc| ensures AccOk(s'.rows, th.ts, th'.acc[j]) {
      if j != k { assert AccOk(s.rows, th.ts, th.acc[j]) && th.acc[j].row != b.row; }
    }
    forall x | Touches(th.acc, x) ensures Touches(th'.acc, x) {
      var j :| 0 <= j < |th.acc| && th.acc[j].row == x;
      assert th'.acc[j].row == x;
    }
    assert FreshOn(s'.rows, th');
  }

  lemma WorksKeeps(s: State, s': State, t: nat, k: nat, b: Access)
    requires Sys(s) && Works(s, s', t, k, b)
    ensures Sys(s')
  {
    hide RowOk, ThreadOk, Works, Evolves, AccOk;
    WorksUnique(s, s', t, k, b);
    forall y | 0 <= y < |s'.rows| ensures RowOk(s'.threads, s'.dealt, y, s'.rows[y]) { WorksRow(s, s', t, k, b, y); }
    forall u | 0 <= u < |s'.threads| ensures ThreadOk(s', s'.threads[u]) {
      if u == t {
        WorkerOk(s, s', t, k, b);
      } else {
        WorksOther(s, s', t, k, b, u);
      }
    }
  }

  lemma WorksOther(s: State, s': State, t: nat, k: nat, b: Access, u: nat)
    requires Sys(s) && Works(s, s', t, k, b) && u < |s.threads| && u != t
    ensures ThreadOk(s', s.threads[u])
    ensures !s.threads[u].Idle? ==> forall y :: 0 <= y < |s.rows| ==> Evolves(s.rows[y], s'.rows[y], s.threads[u].ts)
  {
    hide RowOk, Evolves, AccOk, FreshOn, NoVersion;
    assert ThreadOk(s, s.threads[u]);
    forall y | 0 <= y < |s.rows| && !s.threads[u].Idle? ensures Evolves(s.rows[y], s'.rows[y], s.threads[u].ts) {
      WorksEvolves(s, s', t, k, b, s.threads[u].ts, y);
    }
    ThreadStays(s, s', s.threads[u]);
  }

  lemma WorksUnique(s: State, s': State, t: nat, k: nat, b: Access)
    requires Unique(s) && Works(s, s', t, k, b)
    ensures Unique(s') && |s'.threads| == |s.threads| && |s'.rows| == |s.rows| && s'.threads == s.threads[t := s'.threads[t]]
  {
    hide AccOk, WorksOn;
  }

  ghost predicate Requests(s: State, s': State, t: nat, x: nat, write: bool, code: M.Code, buf: nat) {
    && t < |s.threads| && x < |s.rows| && x < |s'.rows|
    && var th := s.threads[t];
    && th.Running? && !Touches(th.acc, x)
    && s' == SetBoth(s, t, After(th.ts, th.acc, x, write, code, buf), x, s'.rows[x])
    && Answer(s.rows[x], s'.rows[x], t, th.ts, write, code, buf)
  }

  lemma IsFresh(s: State, t: nat, x: nat)
    requires Sys(s) && t < |s.threads| && x < |s.rows| && s.threads[t].Running? && !Touches(s.threads[t].acc, x)
    ensures M.Inv(s.rows[x]) && M.FreshTs(s.rows[x], s.threads[t].ts) && s.rows[x].all != [] && s.rows[x].reqs != []
  {
    assert ThreadOk(s, s.threads[t]) && RowOk(s.threads, s.dealt, x, s.rows[x]);
    HasVersion(s.rows[x]);
  }

  /** A thread that only adds to its accesses keeps what it owns. */
  lemma OwnedStays(a: seq<Thread>, b: seq<Thread>, t: nat, x: nat, ts: nat)
    requires Owned(a, x, ts) && t < |a| && |b| == |a| && b == a[t := b[t]]
    requires !a[t].Idle? && !b[t].Idle? && b[t].ts == a[t].ts && a[t].acc <= b[t].acc
    ensures Owned(b, x, ts)
  {
    var u, k :| 0 <= u < |a| && !a[u].Idle? && a[u].ts == ts && 0 <= k < |a[u].acc| && a[u].acc[k].row == x && a[u].acc[k].write;
    assert b[u].acc[k] == a[u].acc[k];
  }

  lemma RequestRow(s: State, s': State, t: nat, x: nat, write: bool, code: M.Code, buf: nat, y: nat)
    requires Sys(s) && Requests(s, s', t, x, write, code, buf) && y < |s.rows|
    ensures RowOk(s'.threads, s'.dealt, y, s'.rows[y])
  {
    hide M.Inv, Buffer, Settled, Owned, ThreadOk, Unique, M.Live;
    var r, c, th, th' := s.rows[y], s'.rows[y], s.threads[t], s'.threads[t];
    assert RowOk(s.threads, s.dealt, y, r);
    assert th.ts in s.dealt by { assert ThreadOk(s, th); DealtTo(s, t); }
    assert th'.ts == th.ts && th.acc <= th'.acc;
    if r.pending { OwnedStays(s.threads, s'.threads, t, y, r.preTs); }
    if c.pending && !r.pending { NewOwner(s'.threads, t, x); }
    forall q | q in M.Live(c.reqs) ensures Asked(s'.threads, y, q) {
      if q in M.Live(r.reqs) { assert Asked(s.threads, y, q); }
    }
  }

  lemma DealtTo(s: State, t: nat)
    requires t < |s.threads| && ThreadOk(s, s.threads[t]) && !s.threads[t].Idle?
    ensures s.threads[t].ts in s.dealt
  {
  }

  lemma NewOwner(threads: seq<Thread>, t: nat, x: nat)
    requires t < |threads| && threads[t].Running? && threads[t].acc != []
    requires threads[t].acc[|threads[t].acc| - 1].row == x && threads[t].acc[|threads[t].acc| - 1].write
    ensures Owned(threads, x, threads[t].ts)
  {
  }

  lemma RequestAccess(s: State, s': State, t: nat, x: nat, write: bool, code: M.Code, buf: nat, k: nat)
    requires Sys(s) && Requests(s, s', t, x, write, code, buf) && k < |s'.threads[t].acc|
    ensures AccOk(s'.rows, s.threads[t].ts, s'.threads[t].acc[k])
  {
    hide M.Inv, Buffer, FreshOn, NoVersion, Unique, RowOk, M.Live;
    var th := s.threads[t];
    assert ThreadOk(s, th);
    if k < |th.acc| {
      assert AccOk(s.rows, th.ts, th.acc[k]) && s'.threads[t].acc[k] == th.acc[k];
    }
  }

  lemma RequestFresh(s: State, s': State, t: nat, x: nat, write: bool, code: M.Code, buf: nat)
    requires Sys(s) && Requests(s, s', t, x, write, code, buf)
    ensures FreshOn(s'.rows, s'.threads[t])
  {
    hide M.Inv, Buffer, AccOk, NoVersion, Unique, RowOk, M.Live;
    var th, th' := s.threads[t], s'.threads[t];
    assert ThreadOk(s, th) && FreshOn(s.rows, th);
    forall y | 0 <= y < |s'.rows| && th'.ts in s'.rows[y].used && (th'.Running? || th'.Waiting?)
      ensures Touches(th'.acc, y) || (th'.Waiting? && th'.row == y)
    {
      if y == x {
        if th'.Running? { assert th'.acc[|th.acc|].row == x; }
      } else {
        assert Touches(th.acc, y);
        var k :| 0 <= k < |th.acc| && th.acc[k].row == y;
        assert th'.acc[k] == th.acc[k];
      }
    }
  }

  lemma RequestThread(s: State, s': State, t: nat, x: nat, write: bool, code: M.Code, buf: nat)
    requires Sys(s) && Requests(s, s', t, x, write, code, buf)
    ensures ThreadOk(s', s'.threads[t])
  {
    hide M.Inv, Buffer, AccOk, Unique, RowOk, M.Live, FreshOn;
    var th, th' := s.threads[t], s'.threads[t];
    assert ThreadOk(s, th);
    forall k | 0 <= k < |th'.acc| ensures AccOk(s'.rows, th.ts, th'.acc[k]) {
      RequestAccess(s, s', t, x, write, code, buf, k);
    }
    RequestFresh(s, s', t, x, write, code, buf);
    assert NoVersion(s'.rows, th.ts);
  }

  lemma RequestEvolves(s: State, s': State, t: nat, x: nat, write: bool, code: M.Code, buf: nat, u: nat, y: nat)
    requires Sys(s) && Requests(s, s', t, x, write, code, buf) && u != s.threads[t].ts && y < |s.rows|
    ensures Evolves(s.rows[y], s'.rows[y], u)
  {
    hide M.Inv, Buffer, Answer, Evolves, ThreadOk, Unique;
    assert RowOk(s.threads, s.dealt, y, s.rows[y]);
    HasVersion(s.rows[y]);
    if y == x {
      AnswerEvolves(s.rows[x], s'.rows[x], t, s.threads[t].ts, write, code, buf, u);
    } else {
      SameEvolves(s.rows[y], u);
    }
  }

  lemma RequestOther(s: State, s': State, t: nat, x: nat, write: bool, code: M.Code, buf: nat, u: nat)
    requires Sys(s) && Requests(s, s', t, x, write, code, buf) && u < |s.threads| && u != t
    ensures ThreadOk(s', s'.threads[u])
    ensures !s.threads[u].Idle? ==> forall y :: 0 <= y < |s.rows| ==> Evolves(s.rows[y], s'.rows[y], s.threads[u].ts)
  {
    hide Answer, Evolves, RowOk, AccOk, FreshOn, NoVersion;
    var th := s.threads[u];
    assert ThreadOk(s, th);
    forall y | 0 <= y < |s.rows| && !th.Idle? ensures Evolves(s.rows[y], s'.rows[y], th.ts) {
      RequestEvolves(s, s', t, x, write, code, buf, th.ts, y);
    }
    ThreadStays(s, s', th);
  }

  lemma RequestKeeps(s: State, s': State, t: nat, x: nat, write: bool, code: M.Code, buf: nat)
    requires Sys(s) && Requests(s, s', t, x, write, code, buf)
    ensures Sys(s')
  {
    hide M.Inv, Buffer, Settled, RowOk, ThreadOk, AccOk;
    assert Unique(s') by { assert ThreadOk(s, s.threads[t]); }
    forall y | 0 <= y < |s'.rows| ensures RowOk(s'.threads, s'.dealt, y, s'.rows[y]) {
      RequestRow(s, s', t, x, write, code, buf, y);
    }
    forall u | 0 <= u < |s'.threads| ensures ThreadOk(s', s'.threads[u]) {
      if u == t { RequestThread(s, s', t, x, write, code, buf); } else { RequestOther(s, s', t, x, write, code, buf, u); }
    }
  }

  lemma ReadRequests(s: State, s': State, t: nat, x: nat) returns (code: M.Code, buf: nat)
    requires Sys(s) && Read(s, s', t, x)
    ensures Requests(s, s', t, x, false, code, buf)
    ensures M.Inv(s.rows[x]) && M.FreshTs(s.rows[x], s.threads[t].ts) && s.rows[x].all != [] && s.rows[x].reqs != []
    ensures M.Read(s.rows[x], s.threads[t].ts, t) == (s'.rows[x], code, buf)
  {
    hide M.Read, M.Inv, M.FreshTs, M.Live, Sys, Answer;
    IsFresh(s, t, x);
    var w := M.Read(s.rows[x], s.threads[t].ts, t);
    code, buf := w.1, w.2;
    ReadAnswers(s.rows[x], s.threads[t].ts, t);
  }

  lemma PrewriteRequests(s: State, s': State, t: nat, x: nat, minTs: nat) returns (code: M.Code, buf: nat)
    requires Sys(s) && Prewrite(s, s', t, x, minTs)
    ensures Requests(s, s', t, x, true, code, buf)
  {
    hide M.Prewrite, M.Inv, M.FreshTs, M.Live, Sys, Answer;
    IsFresh(s, t, x);
    var w := M.Prewrite(s.rows[x], s.threads[t].ts, t, minTs);
    code, buf := w.1, w.2;
    PrewriteAnswers(s.rows[x], s.threads[t].ts, t, minTs);
  }

  // ---------------------------------------------------------------- returning a written row

  /** Everything the proof uses about the return of the written row `x` by the thread `t`. */
  ghost predicate Returns(s: State, s': State, t: nat, x: nat, d: M.Row, ws: seq<M.Wakeup>) {
    && t < |s.threads| && x < |s.rows|
    && var th, r := s.threads[t], s.rows[x];
    && th.Ending? && th.acc != [] && th.acc[|th.acc| - 1].write && th.acc[|th.acc| - 1].row == x
    && r.pending && r.preTs == th.ts
    && Left(r, th.commit, d, ws)
    && s'.rows == s.rows[x := d] && s'.dealt == s.dealt && s'.order == s.order && s'.log == s.log && s'.looked == s.looked
    && |s'.threads| == |s.threads|
    && s'.threads[t] == Ending(th.ts, th.acc[..|th.acc| - 1], th.commit)
    && forall u :: 0 <= u < |s.threads| && u != t ==> Resumes(s.threads[u], s'.threads[u], u, ws)
  }

  lemma ReturnsWell(s: State, s': State, t: nat, minTs: nat) returns (x: nat, d: M.Row, ws: seq<M.Wakeup>)
    requires Sys(s) && ReturnWrite(s, s', t, minTs)
    ensures Returns(s, s', t, x, d, ws)
  {
    hide M.Update, M.Inv, Left, M.Install, M.Drop, FreshOn, NoVersion, Resumes, M.Live, Unique;
    var th := s.threads[t];
    var a := th.acc[|th.acc| - 1];
    x := a.row;
    var r := s.rows[x];
    assert ThreadOk(s, th) && AccOk(s.rows, th.ts, a) && RowOk(s.threads, s.dealt, x, r);
    var u := M.Update(if th.commit then M.Install(r) else M.Drop(r), r.preTs, minTs);
    d, ws := u.0, u.1;
    LeavesRow(r, th.commit, minTs);
  }

  /** Who is woken waits for this row, with the request that is answered, and not for longer
      than the next pending write. */
  lemma WokenWaits(s: State, s': State, t: nat, x: nat, d: M.Row, ws: seq<M.Wakeup>, i: nat)
    requires Sys(s) && Returns(s, s', t, x, d, ws) && i < |ws|
    ensures Asked(s.threads, x, ws[i].req) && ws[i].req.txn != t
    ensures d.pending ==> ws[i].req.ts <= d.preTs
  {
    assert RowOk(s.threads, s.dealt, x, s.rows[x]);
    assert ws[i] in ws;
  }

  /** A thread that is not woken stays, one that is goes on with its answer. */
  lemma ResumeIs(s: State, s': State, t: nat, x: nat, d: M.Row, ws: seq<M.Wakeup>, u: nat) returns (i: int)
    requires Sys(s) && Returns(s, s', t, x, d, ws) && u < |s.threads| && u != t
    ensures i < 0 ==> s'.threads[u] == s.threads[u] && forall j :: 0 <= j < |ws| ==> ws[j].req.txn != u
    ensures i >= 0 ==> i < |ws| && ws[i].req.txn == u && Asked(s.threads, x, ws[i].req)
                       && s'.threads[u] == Running(s.threads[u].ts, s.threads[u].acc + [Granted(x, s.threads[u].write, ws[i].row)])
  {
    hide M.Inv, M.GotRight, M.Live, Unique;
    i := -1;
    assert Resumes(s.threads[u], s'.threads[u], u, ws);
    if exists j :: 0 <= j < |ws| && ws[j].req.txn == u {
      i :| 0 <= i < |ws| && ws[i].req.txn == u && s'.threads[u] == Answered(s.threads[u], ws[i].row);
      WokenWaits(s, s', t, x, d, ws, i);
    }
  }

  /** Whoever owned another row still does. */
  lemma ReturnOwned(s: State, s': State, t: nat, x: nat, d: M.Row, ws: seq<M.Wakeup>, y: nat, ts: nat)
    requires Sys(s) && Returns(s, s', t, x, d, ws) && y != x && Owned(s.threads, y, ts)
    ensures Owned(s'.threads, y, ts)
  {
    hide M.Inv, M.GotRight, M.Live, Unique, RowOk, ThreadOk, Resumes;
    var u, k :| 0 <= u < |s.threads| && !s.threads[u].Idle? && s.threads[u].ts == ts
                && 0 <= k < |s.threads[u].acc| && s.threads[u].acc[k].row == y && s.threads[u].acc[k].write;
    if u != t { var i := ResumeIs(s, s', t, x, d, ws, u); }
    assert s'.threads[u].acc[k] == s.threads[u].acc[k];
  }

  lemma ReturnRow(s: State, s': State, t: nat, x: nat, d: M.Row, ws: seq<M.Wakeup>)
    requires Sys(s) && Returns(s, s', t, x, d, ws)
    ensures RowOk(s'.threads, s'.dealt, x, d)
  {
    hide M.Inv, M.GotRight, M.Live, Unique, ThreadOk, Resumes;
    assert RowOk(s.threads, s.dealt, x, s.rows[x]);
    if d.pending {
      var j :| 0 <= j < |ws| && ws[j].req.kind == M.P && ws[j].req.ts == d.preTs;
      WokenWaits(s, s', t, x, d, ws, j);
      var u := ws[j].req.txn;
      var i := ResumeIs(s, s', t, x, d, ws, u);
      NewOwner(s'.threads, u, x);
    }
    forall q | q in M.Live(d.reqs) ensures Asked(s'.threads, x, q) {
      assert Asked(s.threads, x, q);
      var i := ResumeIs(s, s', t, x, d, ws, q.txn);
      if i >= 0 { WokenWaits(s, s', t, x, d, ws, i); }
    }
  }

  lemma ReturnOtherRow(s: State, s': State, t: nat, x: nat, d: M.Row, ws: seq<M.Wakeup>, y: nat)
    requires Sys(s) && Returns(s, s', t, x, d, ws) && y < |s.rows| && y != x
    ensures RowOk(s'.threads, s'.dealt, y, s'.rows[y])
  {
    hide M.Inv, M.GotRight, M.Live, Unique, ThreadOk, Resumes, Owned;
    var r := s.rows[y];
    assert RowOk(s.threads, s.dealt, y, r);
    if r.pending { ReturnOwned(s, s', t, x, d, ws, y, r.preTs); }
    forall q | q in M.Live(r.reqs) ensures Asked(s'.threads, y, q) {
      assert Asked(s.threads, y, q);
      var i := ResumeIs(s, s', t, x, d, ws, q.txn);
    }
  }

  lemma ReturnerOk(s: State, s': State, t: nat, x: nat, d: M.Row, ws: seq<M.Wakeup>)
    requires Sys(s) && Returns(s, s', t, x, d, ws)
    ensures ThreadOk(s', s'.threads[t])
  {
    hide M.Inv, M.GotRight, M.Live, Unique, RowOk, Resumes, Settled;
    var th, th' := s.threads[t], s'.threads[t];
    assert ThreadOk(s, th);
    forall k | 0 <= k < |th'.acc| ensures AccOk(s'.rows, th.ts, th'.acc[k]) {
      assert AccOk(s.rows, th.ts, th.acc[k]) && th'.acc[k] == th.acc[k];
      assert th.acc[k].row != th.acc[|th.acc| - 1].row;
    }
  }

  lemma ReturnEvolvesAll(s: State, s': State, t: nat, x: nat, d: M.Row, ws: seq<M.Wakeup>, u: nat, y: nat)
    requires Sys(s) && Returns(s, s', t, x, d, ws) && u < |s.threads| && u != t && !s.threads[u].Idle? && y < |s.rows|
    ensures Evolves(s.rows[y], s'.rows[y], s.threads[u].ts)
  {
    assert RowOk(s.threads, s.dealt, y, s.rows[y]);
    if y == x {
      ReturnEvolves(s.rows[x], d, Version(s.rows[x].preTs, Buffer(s.rows[x])), s.threads[u].ts);
    } else {
      HasVersion(s.rows[y]);
      SameEvolves(s.rows[y], s.threads[u].ts);
    }
  }

  /** A woken write gets the buffer that is reserved for it, a copy of the latest version. */
  lemma HandedRight(d: M.Row, ws: seq<M.Wakeup>, i: nat)
    requires M.Inv(d) && M.GotRight(d, ws) && i < |ws|
    ensures var q := ws[i].req;
      if q.kind == M.R then q.ts > 0 && Settled(d, q.ts) && M.Served(q.ts, M.Newer(d.all, q.ts - 1), ws[i].row) in d.served
      else d.pending && d.preTs == q.ts && Reserved(d) == H.At(ws[i].row) && Buffer(d) == Last(d.all).value
  {
    hide M.StoreOk, M.ReadsOk, M.ReqsOk, M.UsedOk;
    HasVersion(d);
    assert ws[i] in ws;
  }

  /** What is handed to a woken transaction is a proper access. */
  lemma WokenAccess(s': State, th: Thread, x: nat, d: M.Row, buf: nat)
    requires x < |s'.rows| && s'.rows[x] == d && th.Waiting? && d.all != [] && th.ts > 0
    requires if th.write then d.pending && d.preTs == th.ts && Reserved(d) == H.At(buf) && Buffer(d) == Last(d.all).value
             else Settled(d, th.ts)
    ensures AccOk(s'.rows, th.ts, Granted(x, th.write, buf))
  {
  }

  lemma WokenFresh(s': State, th: Thread, x: nat, a: Access)
    requires th.Waiting? && th.row == x && a.row == x && FreshOn(s'.rows, th)
    ensures FreshOn(s'.rows, Running(th.ts, th.acc + [a]))
  {
    var acc := th.acc + [a];
    forall y | 0 <= y < |s'.rows| && th.ts in s'.rows[y].used ensures Touches(acc, y) {
      if Touches(th.acc, y) {
        var k :| 0 <= k < |th.acc| && th.acc[k].row == y;
        assert acc[k].row == y;
      } else {
        assert acc[|th.acc|].row == x;
      }
    }
  }

  lemma WokenThread(s': State, th: Thread, x: nat, a: Access)
    requires ThreadOk(s', th) && th.Waiting? && th.row == x && a.row == x && AccOk(s'.rows, th.ts, a)
    ensures ThreadOk(s', Running(th.ts, th.acc + [a]))
  {
    hide AccOk, FreshOn, NoVersion;
    WokenFresh(s', th, x, a);
    var acc := th.acc + [a];
    forall k | 0 <= k < |acc| ensures AccOk(s'.rows, th.ts, acc[k]) {
      if k < |th.acc| { assert acc[k] == th.acc[k]; }
    }
    forall j, k | 0 <= j < k < |acc| ensures acc[j].row != acc[k].row {
      if k == |th.acc| { assert th.acc[j].row != x; }
    }
  }

  lemma WokenOk(s: State, s': State, t: nat, x: nat, d: M.Row, ws: seq<M.Wakeup>, u: nat, i: nat)
    requires Sys(s) && Returns(s, s', t, x, d, ws) && u < |s.threads| && u != t && i < |ws|
    requires ThreadOk(s', s.threads[u]) && Asked(s.threads, x, ws[i].req) && ws[i].req.txn == u
    ensures ThreadOk(s', Running(s.threads[u].ts, s.threads[u].acc + [Granted(x, s.threads[u].write, ws[i].row)]))
  {
    hide M.GotRight, M.Live, M.Inv, Sys, Resumes, Settled, AccOk, FreshOn, NoVersion, Reserved, Buffer;
    HandedRight(d, ws, i);
    HasVersion(d);
    var th := s.threads[u];
    WokenAccess(s', th, x, d, ws[i].row);
    WokenThread(s', th, x, Granted(x, th.write, ws[i].row));
  }

  lemma ReturnOther(s: State, s': State, t: nat, x: nat, d: M.Row, ws: seq<M.Wakeup>, u: nat)
    requires Sys(s) && Returns(s, s', t, x, d, ws) && u < |s.threads| && u != t
    ensures ThreadOk(s', s'.threads[u])
    ensures !s.threads[u].Idle? ==> forall y :: 0 <= y < |s.rows| ==> Evolves(s.rows[y], s'.rows[y], s.threads[u].ts)
  {
    hide M.Inv, Left, Unique, RowOk, Resumes, AccOk, Evolves, FreshOn, NoVersion;
    assert ThreadOk(s, s.threads[u]);
    forall y | 0 <= y < |s.rows| && !s.threads[u].Idle? ensures Evolves(s.rows[y], s'.rows[y], s.threads[u].ts) {
      ReturnEvolvesAll(s, s', t, x, d, ws, u, y);
    }
    ThreadStays(s, s', s.threads[u]);
    var i := ResumeIs(s, s', t, x, d, ws, u);
    if i >= 0 { WokenOk(s, s', t, x, d, ws, u, i); }
  }

  /** Nobody's timestamp changes, nor who is committing. */
  lemma ReturnUnique(s: State, s': State, t: nat, x: nat, d: M.Row, ws: seq<M.Wakeup>)
    requires Sys(s) && Returns(s, s', t, x, d, ws)
    ensures Unique(s')
    ensures forall u :: 0 <= u < |s.threads| ==>
              && s'.threads[u].Idle? == s.threads[u].Idle? && (!s.threads[u].Idle? ==> s'.threads[u].ts == s.threads[u].ts)
              && Committed(s'.threads[u]) == Committed(s.threads[u])
  {
    hide M.Inv, Left, RowOk, Resumes, AccOk, ThreadOk;
    forall u | 0 <= u < |s.threads|
      ensures s'.threads[u].Idle? == s.threads[u].Idle? && (!s.threads[u].Idle? ==> s'.threads[u].ts == s.threads[u].ts)
      ensures Committed(s'.threads[u]) == Committed(s.threads[u])
    {
      if u != t { var i := ResumeIs(s, s', t, x, d, ws, u); }
    }
  }

  lemma ReturnKeeps(s: State, s': State, t: nat, x: nat, d: M.Row, ws: seq<M.Wakeup>)
    requires Sys(s) && Returns(s, s', t, x, d, ws)
    ensures Sys(s')
  {
    hide Left, Resumes, RowOk, ThreadOk, Unique;
    ReturnUnique(s, s', t, x, d, ws);
    forall y | 0 <= y < |s'.rows| ensures RowOk(s'.threads, s'.dealt, y, s'.rows[y]) {
      if y == x { ReturnRow(s, s', t, x, d, ws); } else { ReturnOtherRow(s, s', t, x, d, ws, y); }
    }
    forall u | 0 <= u < |s'.threads| ensures ThreadOk(s', s'.threads[u]) {
      if u == t { ReturnerOk(s, s', t, x, d, ws); } else { ReturnOther(s, s', t, x, d, ws, u); }
    }
  }

  // ---------------------------------------------------------------- whole runs

  /** Every step of every run keeps the rows and the threads in agreement, whatever the
      transactions see. */
  lemma StepKeepsSys(s: State, s': State, t: nat)
    requires Sys(s) && Step(s, s', t)
    ensures Sys(s')
  {
    hide Sys, Begin, Read, Prewrite, Look, Fill, Rollback, Commit, ReturnRead, ReturnWrite, Finish, Requests, Returns, Works;
    if ts :| Begin(s, s', t, ts) { BeginKeeps(s, s', t, ts); }
    else if x :| Read(s, s', t, x) { var code, buf := ReadRequests(s, s', t, x); RequestKeeps(s, s', t, x, false, code, buf); }
    else if x, minTs :| Prewrite(s, s', t, x, minTs) {
      var code, buf := PrewriteRequests(s, s', t, x, minTs);
      RequestKeeps(s, s', t, x, true, code, buf);
    }
    else if k :| Look(s, s', t, k) { var b := LookWorks(s, s', t, k); WorksKeeps(s, s', t, k, b); }
    else if k, v :| Fill(s, s', t, k, v) { var b := FillWorks(s, s', t, k, v); WorksKeeps(s, s', t, k, b); }
    else if Rollback(s, s', t) { RollbackKeeps(s, s', t); }
    else if Commit(s, s', t) { CommitKeeps(s, s', t); }
    else if ReturnRead(s, s', t) { ReturnReadKeeps(s, s', t); }
    else if minTs :| ReturnWrite(s, s', t, minTs) {
      var x, d, ws := ReturnsWell(s, s', t, minTs);
      ReturnKeeps(s, s', t, x, d, ws);
    }
    else { FinishKeeps(s, s', t); }
  }

  lemma InitSys(s: State, db: Db, cores: nat)
    requires Init(s, db, cores)
    ensures Sys(s)
  {
    forall x | 0 <= x < |s.rows| ensures RowOk(s.threads, s.dealt, x, s.rows[x]) {
      M.InitInv(db[x], cores);
      forall q | q in M.Live(s.rows[x].reqs) ensures false { M.LiveHas(s.rows[x].reqs, q); }
    }
  }

  lemma {:induction false} RunSys(run: seq<State>, who: seq<nat>, db: Db, cores: nat)
    requires Run(run, who, db, cores)
    ensures Sys(run[|run| - 1])
  {
    hide Sys, Step, Init;
    if |run| == 1 {
      InitSys(run[0], db, cores);
    } else {
      var n := |run| - 2;
      assert Step(run[n], run[n + 1], who[n]);
      RunSys(run[..n + 1], who[..n], db, cores);
      StepKeepsSys(run[n], run[n + 1], who[n]);
    }
  }

  // ---------------------------------------------------------------- waiting

  /** The request of a waiting transaction is in its row's buffer. */
  ghost predicate Queued(s: State, t: nat) {
    t < |s.threads| && s.threads[t].Waiting? ==>
      s.threads[t].row < |s.rows| && exists q :: q in M.Live(s.rows[s.threads[t].row].reqs) && q.txn == t
  }

  lemma RequestQueues(s: State, s': State, t: nat, x: nat, write: bool, code: M.Code, buf: nat, u: nat)
    requires Sys(s) && Requests(s, s', t, x, write, code, buf) && u < |s.threads| && Queued(s, u)
    ensures Queued(s', u)
  {
    hide M.Inv, M.Live, ThreadOk, RowOk, Unique, Settled;
    if u == t {
      if code == M.Wait { assert M.Req(true, if write then M.P else M.R, s.threads[t].ts, t) in M.Live(s'.rows[x].reqs); }
    } else if s.threads[u].Waiting? {
      var q :| q in M.Live(s.rows[s.threads[u].row].reqs) && q.txn == u;
      assert q in M.Live(s'.rows[s.threads[u].row].reqs);
    }
  }

  lemma ReturnQueues(s: State, s': State, t: nat, x: nat, d: M.Row, ws: seq<M.Wakeup>, u: nat)
    requires Sys(s) && Returns(s, s', t, x, d, ws) && u < |s.threads| && Queued(s, u)
    ensures Queued(s', u)
  {
    hide M.Inv, M.Live, M.GotRight, ThreadOk, RowOk, Unique, Settled, Resumes;
    if u != t {
      var i := ResumeIs(s, s', t, x, d, ws, u);
      if i < 0 && s.threads[u].Waiting? {
        var q :| q in M.Live(s.rows[s.threads[u].row].reqs) && q.txn == u;
        assert s.threads[u].row == x ==> q in M.Live(d.reqs);
      }
    }
  }

  lemma StepQueues(s: State, s': State, t: nat, u: nat)
    requires Sys(s) && Step(s, s', t) && u < |s.threads| && Queued(s, u)
    ensures |s'.threads| == |s.threads| && Queued(s', u)
  {
    hide M.Inv, M.Live, M.Read, M.Prewrite, M.Update, Sys, Insert, TxnOf, M.FreshTs, Resumes, Requests, Returns, Works, Answer, Left;
    if x: nat :| Read(s, s', t, x) {
      var code, buf := ReadRequests(s, s', t, x);
      RequestQueues(s, s', t, x, false, code, buf, u);
    } else if x: nat, minTs :| Prewrite(s, s', t, x, minTs) {
      var code, buf := PrewriteRequests(s, s', t, x, minTs);
      RequestQueues(s, s', t, x, true, code, buf, u);
    } else if minTs :| ReturnWrite(s, s', t, minTs) {
      var x, d, ws := ReturnsWell(s, s', t, minTs);
      ReturnQueues(s, s', t, x, d, ws, u);
    }
  }

  lemma {:induction false} RunQueues(run: seq<State>, who: seq<nat>, db: Db, cores: nat, u: nat)
    requires Run(run, who, db, cores) && u < |run[0].threads|
    ensures |run[|run| - 1].threads| == |run[0].threads| && Queued(run[|run| - 1], u)
  {
    hide Sys, Step, Init, Queued;
    if |run| == 1 {
      StartsQueued(run[0], db, cores, u);
    } else {
      var n := |run| - 2;
      assert Step(run[n], run[n + 1], who[n]);
      RunSys(run[..n + 1], who[..n], db, cores);
      RunQueues(run[..n + 1], who[..n], db, cores, u);
      StepQueues(run[n], run[n + 1], who[n], u);
    }
  }

  lemma StartsQueued(s: State, db: Db, cores: nat, u: nat)
    requires Init(s, db, cores) && u < |s.threads|
    ensures Queued(s, u)
  {
  }

  ghost predicate Active(s: State, t: nat) { t < |s.threads| && !s.threads[t].Idle? }

  /** A waiting transaction waits for the pending write of an active one with a smaller
      timestamp. */
  lemma WaitsForEarlier(s: State, t: nat) returns (u: nat)
    requires Sys(s) && t < |s.threads| && s.threads[t].Waiting? && Queued(s, t)
    ensures Active(s, u) && s.threads[u].ts < s.threads[t].ts
    ensures s.rows[s.threads[t].row].pending && s.rows[s.threads[t].row].preTs == s.threads[u].ts
  {
    hide M.Live, AccOk, FreshOn, NoVersion, ThreadOk, Unique, M.StoreOk, M.ReadsOk, M.UsedOk;
    var x := s.threads[t].row;
    var q :| q in M.Live(s.rows[x].reqs) && q.txn == t;
    assert RowOk(s.threads, s.dealt, x, s.rows[x]) && Asked(s.threads, x, q);
    M.LiveHas(s.rows[x].reqs, q);
    var v, k :| 0 <= v < |s.threads| && !s.threads[v].Idle? && s.threads[v].ts == s.rows[x].preTs
                && 0 <= k < |s.threads[v].acc| && s.threads[v].acc[k].row == x && s.threads[v].acc[k].write;
    u := v;
  }

  lemma {:induction false} EarliestOf(s: State, n: nat) returns (t: nat)
    requires n <= |s.threads| && exists u :: 0 <= u < n && Active(s, u)
    ensures t < n && Active(s, t)
    ensures forall u :: 0 <= u < n && Active(s, u) ==> s.threads[t].ts <= s.threads[u].ts
  {
    if exists u :: 0 <= u < n - 1 && Active(s, u) {
      t := EarliestOf(s, n - 1);
      if Active(s, n - 1) && s.threads[n - 1].ts < s.threads[t].ts { t := n - 1; }
    } else {
      t := n - 1;
    }
  }

  // ---------------------------------------------------------------- progress

  /** Some choice of the answers: every woken transaction goes on with the first one. */
  function WakeAll(threads: seq<Thread>, ws: seq<M.Wakeup>): (r: seq<Thread>)
    ensures |r| == |threads|
    ensures forall u :: 0 <= u < |threads| ==> Resumes(threads[u], r[u], u, ws)
  {
    seq(|threads|, u requires 0 <= u < |threads| =>
      var i := FirstFor(ws, u);
      if i < |ws| then Answered(threads[u], ws[i].row) else threads[u])
  }

  function FirstFor(ws: seq<M.Wakeup>, u: nat): (i: nat)
    ensures i <= |ws| && (i < |ws| ==> ws[i].req.txn == u)
    ensures forall j :: 0 <= j < i ==> ws[j].req.txn != u
  {
    if ws == [] || ws[0].req.txn == u then 0 else 1 + FirstFor(ws[1..], u)
  }

  lemma OwnsBuffer(s: State, t: nat)
    requires Sys(s) && t < |s.threads| && s.threads[t].Ending? && s.threads[t].acc != []
    ensures var a := s.threads[t].acc[|s.threads[t].acc| - 1];
            a.row < |s.rows| && (a.write ==> M.HasBuffer(s.rows[a.row]))
  {
    hide M.Live, M.ReqsOk, M.ReadsOk, M.UsedOk, FreshOn, NoVersion, Asked, Owned;
    var th := s.threads[t];
    var a := th.acc[|th.acc| - 1];
    assert ThreadOk(s, th) && AccOk(s.rows, th.ts, a) && RowOk(s.threads, s.dealt, a.row, s.rows[a.row]);
    if a.write { assert M.SlotOk(s.rows[a.row], s.rows[a.row].preId); }
  }

  /** A transaction that is ending can return its next row. */
  lemma ReturnsNext(s: State, t: nat) returns (s': State)
    requires Sys(s) && t < |s.threads| && s.threads[t].Ending? && s.threads[t].acc != []
    ensures Step(s, s', t) && |s'.threads| == |s.threads|
    ensures s'.threads[t] == Ending(s.threads[t].ts, s.threads[t].acc[..|s.threads[t].acc| - 1], s.threads[t].commit)
    ensures s'.log == s.log
  {
    hide Sys, M.HasBuffer, M.Update, M.Install, M.Drop, Resumes;
    var th := s.threads[t];
    var a := th.acc[|th.acc| - 1];
    var th' := Ending(th.ts, th.acc[..|th.acc| - 1], th.commit);
    OwnsBuffer(s, t);
    if a.write {
      s' := WriteReturned(s, t);
      assert ReturnWrite(s, s', t, 0);
    } else {
      s' := SetThread(s, t, th');
      assert ReturnRead(s, s', t);
    }
  }

  lemma WriteReturned(s: State, t: nat) returns (s': State)
    requires t < |s.threads| && s.threads[t].Ending? && s.threads[t].acc != []
    requires var a := s.threads[t].acc[|s.threads[t].acc| - 1]; a.write && a.row < |s.rows| && M.HasBuffer(s.rows[a.row])
    ensures ReturnWrite(s, s', t, 0) && s'.log == s.log
  {
    hide M.Update, M.Install, M.Drop, Resumes;
    var th := s.threads[t];
    var a := th.acc[|th.acc| - 1];
    var r := s.rows[a.row];
    var f := if th.commit then M.Install(r) else M.Drop(r);
    var (d, ws) := M.Update(f, r.preTs, 0);
    var threads := WakeAll(s.threads, ws);
    s' := s.(rows := s.rows[a.row := d], threads := threads[t := Ending(th.ts, th.acc[..|th.acc| - 1], th.commit)]);
  }

  /** A transaction that is ending, running alone, returns all its rows and is done. */
  lemma {:induction false} RunsOut(s: State, t: nat) returns (rest: seq<State>)
    requires Sys(s) && t < |s.threads| && s.threads[t].Ending?
    ensures rest != [] && rest[0] == s && forall i :: 0 <= i < |rest| - 1 ==> Step(rest[i], rest[i + 1], t)
    ensures var e := rest[|rest| - 1]; |e.threads| == |s.threads| && e.threads[t] == Idle && e.log == s.log
    decreases |s.threads[t].acc|
  {
    hide Sys, Step;
    if s.threads[t].acc == [] {
      var e := SetThread(s, t, Idle);
      assert Finish(s, e, t);
      FinishSteps(s, e, t);
      rest := [s, e];
    } else {
      var s' := ReturnsNext(s, t);
      StepKeepsSys(s, s', t);
      var more := RunsOut(s', t);
      rest := [s] + more;
      forall i | 0 <= i < |rest| - 1 ensures Step(rest[i], rest[i + 1], t) {
        if i > 0 { assert rest[i] == more[i - 1] && rest[i + 1] == more[i]; }
      }
    }
  }

  lemma FinishSteps(s: State, s': State, t: nat)
    requires Finish(s, s', t)
    ensures Step(s, s', t)
  {
  }

  lemma CommitSteps(s: State, s': State, t: nat)
    requires Commit(s, s', t)
    ensures Step(s, s', t)
  {
  }

  /** No deadlock, and nobody is needed: whenever transactions are active, the one with the
      smallest timestamp waits for nobody, and running alone it reaches its end, with a commit
      unless it has been aborted before. */
  lemma SomebodyRuns(run: seq<State>, who: seq<nat>, db: Db, cores: nat, some: nat) returns (t: nat, rest: seq<State>)
    requires Run(run, who, db, cores) && Active(run[|run| - 1], some)
    ensures var s := run[|run| - 1];
      && Active(s, t) && !s.threads[t].Waiting?
      && (forall u: nat :: Active(s, u) ==> s.threads[t].ts <= s.threads[u].ts)
      && rest != [] && rest[0] == s && (forall i :: 0 <= i < |rest| - 1 ==> Step(rest[i], rest[i + 1], t))
      && var e := rest[|rest| - 1];
      && t < |e.threads| && e.threads[t] == Idle
      && |e.log| == |s.log| + if s.threads[t].Running? then 1 else 0
  {
    hide Sys, Run, Queued, Step;
    RunSys(run, who, db, cores);
    var s := LastOf(run, who, db, cores);
    t := EarliestOf(s, |s.threads|);
    if s.threads[t].Waiting? {
      RunQueues(run, who, db, cores, t);
      var u := WaitsForEarlier(s, t);
    }
    rest := RunsAlone(s, t);
  }

  lemma RunsAlone(s: State, t: nat) returns (rest: seq<State>)
    requires Sys(s) && Active(s, t) && !s.threads[t].Waiting?
    ensures rest != [] && rest[0] == s && forall i :: 0 <= i < |rest| - 1 ==> Step(rest[i], rest[i + 1], t)
    ensures var e := rest[|rest| - 1];
      && |e.threads| == |s.threads| && e.threads[t] == Idle
      && |e.log| == |s.log| + if s.threads[t].Running? then 1 else 0
  {
    hide Sys, Step, Insert, TxnOf;
    if s.threads[t].Ending? {
      rest := RunsOut(s, t);
    } else {
      var th := s.threads[t];
      var txn := TxnOf(s.rows, th.ts, th.acc);
      var c := State(s.rows, s.threads[t := Ending(th.ts, th.acc, true)], s.dealt,
                     Insert(s.order, txn), s.log + [txn], s.looked + [th.acc]);
      assert Commit(s, c, t);
      CommitSteps(s, c, t);
      StepKeepsSys(s, c, t);
      var more := RunsOut(c, t);
      rest := [s] + more;
      forall i | 0 <= i < |rest| - 1 ensures Step(rest[i], rest[i + 1], t) {
        if i > 0 { assert rest[i] == more[i - 1] && rest[i + 1] == more[i]; }
      }
    }
  }

  lemma LastOf(run: seq<State>, who: seq<nat>, db: Db, cores: nat) returns (s: State)
    requires Run(run, who, db, cores)
    ensures run != [] && s == run[|run| - 1] && |s.threads| == |run[0].threads|
  {
    s := run[|run| - 1];
    LengthStays(run, who, db, cores);
  }

  lemma {:induction false} LengthStays(run: seq<State>, who: seq<nat>, db: Db, cores: nat)
    requires Run(run, who, db, cores)
    ensures |run[|run| - 1].threads| == |run[0].threads|
  {
    hide Init, M.Read, M.Prewrite, M.Update, Insert, TxnOf, Resumes, M.Fill;
    if |run| > 1 {
      var n := |run| - 2;
      assert Step(run[n], run[n + 1], who[n]);
      LengthStays(run[..n + 1], who[..n], db, cores);
    }
  }
}
