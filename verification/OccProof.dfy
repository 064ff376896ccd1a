/** Optimistic concurrency control with per-row validation is serializable in the order of the
    end timestamps. */
module OccProof {
  import opened Serial
  import opened Ledger
  import opened Occ
  import opened OccReports

  /** The positions `Lo .. Hi` of its accesses that a thread holds latched. */
  function Lo(th: Thread): nat {
    if th.Releasing? then th.k else 0
  }

  function Hi(th: Thread): nat {
    match th
    case Latching(_, _, n) => n
    case Writing(_, acc, _) => |acc|
    case Releasing(_, _, n) => n
    case _ => 0
  }

  function Acc(th: Thread): seq<Access> {
    if th.Idle? then [] else th.acc
  }

  ghost predicate Distinct(acc: seq<Access>) {
    forall j, k :: 0 <= j < k < |acc| ==> acc[j].row != acc[k].row
  }

  /** The thread has committed a version of row `x` that it has not written back yet. */
  ghost predicate Owes(th: Thread, x: nat, k: int) {
    th.Writing? && 0 <= k < th.i <= |th.acc| && th.acc[k].row == x && th.acc[k].write
  }

  ghost predicate Owed(s: State, x: nat) {
    exists t, k :: 0 <= t < |s.threads| && Owes(s.threads[t], x, k)
  }

  /** The copy is still the row's contents, or validation will find out. */
  ghost predicate CopyOk(s: State, start: nat, a: Access) {
    && a.row < |s.rows| && |s.db| == |s.rows|
    && (a.orig == s.db[a.row]
        || start < s.rows[a.row].wts
        || exists t, k :: 0 <= t < |s.threads| && Owes(s.threads[t], a.row, k) && start < s.threads[t].end)
  }

  ghost predicate HoldsOk(rows: seq<Row>, t: nat, th: Thread) {
    && Lo(th) <= Hi(th) <= |Acc(th)|
    && forall k :: Lo(th) <= k < Hi(th) ==> Acc(th)[k].row < |rows| && rows[Acc(th)[k].row].latch == HeldBy(t)
  }

  /** A committed version that is still to be written back. */
  ghost predicate ToWrite(s: State, end: nat, a: Access) {
    a.row < |s.rows| && |s.db| == |s.rows| && s.rows[a.row].wts < end && s.db[a.row] == a.data
  }

  ghost predicate ThreadOk(s: State, t: nat, th: Thread) {
    && HoldsOk(s.rows, t, th) && Distinct(Acc(th))
    && (th.Running? || th.Latching? ==>
          th.start <= s.clock && forall k :: 0 <= k < |th.acc| ==> CopyOk(s, th.start, th.acc[k]))
    && (th.Latching? ==> forall k :: 0 <= k < th.n ==> th.acc[k].row < |s.rows| && s.rows[th.acc[k].row].wts <= th.start)
    && (th.Writing? ==>
          && th.i <= |th.acc| && th.end <= s.clock
          && forall k :: 0 <= k < th.i && th.acc[k].write ==> ToWrite(s, th.end, th.acc[k]))
  }

  /** Who holds a latch, and for which access. */
  ghost predicate LatchOk(s: State, x: nat)
    requires x < |s.rows|
  {
    var r := s.rows[x];
    r.latch.HeldBy? ==>
      && r.latch.thd < |s.threads|
      && exists k :: Lo(s.threads[r.latch.thd]) <= k < Hi(s.threads[r.latch.thd]) <= |Acc(s.threads[r.latch.thd])|
                     && Acc(s.threads[r.latch.thd])[k].row == x
  }

  ghost predicate RowOk(s: State, x: nat)
    requires x < |s.rows| && |s.db| == |s.rows|
  {
    var r := s.rows[x];
    && r.wts <= s.clock
    && LatchOk(s, x)
    && (r.data == s.db[x] || Owed(s, x))
  }

  ghost predicate LogOk(s: State, db0: Db) {
    && Sorted(s.log) && Replays(db0, s.log) && Exec(db0, s.log) == s.db
    && (s.log != [] ==> s.log[|s.log| - 1].ts <= s.clock)
  }

  ghost predicate Inv(s: State, db0: Db) {
    && |s.rows| == |s.db| == |db0|
    && (forall x :: 0 <= x < |s.rows| ==> RowOk(s, x))
    && (forall t :: 0 <= t < |s.threads| ==> ThreadOk(s, t, s.threads[t]))
    && LogOk(s, db0)
  }

  /** Whoever owes a row holds its latch. */
  lemma OwerHolds(s: State, t: nat, x: nat, k: int)
    requires t < |s.threads| && ThreadOk(s, t, s.threads[t]) && Owes(s.threads[t], x, k)
    ensures x < |s.rows| && s.rows[x].latch == HeldBy(t)
  {
  }

  /** A step of one thread that changes no row and commits nothing. */
  lemma ThreadMoves(s: State, s': State, t: nat, db0: Db)
    requires Inv(s, db0) && t < |s.threads|
    requires |s'.threads| == |s.threads| && s'.threads == s.threads[t := s'.threads[t]]
    requires s'.rows == s.rows && s'.db == s.db && s'.log == s.log && s.clock <= s'.clock
    requires ThreadOk(s', t, s'.threads[t])
    requires (Lo(s'.threads[t]) == Hi(s'.threads[t]) && Lo(s.threads[t]) == Hi(s.threads[t]))
             || (Lo(s'.threads[t]) == Lo(s.threads[t]) && Hi(s'.threads[t]) == Hi(s.threads[t]) && Acc(s'.threads[t]) == Acc(s.threads[t]))
    requires forall x, k :: Owes(s.threads[t], x, k) ==> Owes(s'.threads[t], x, k) && s'.threads[t].end == s.threads[t].end
    ensures Inv(s', db0)
  {
    hide RowOk, ThreadOk, LogOk, Owes, Lo, Hi, Acc;
    forall x | 0 <= x < |s.rows| ensures RowOk(s', x) {
      assert RowOk(s, x);
      MovesRow(s, s', t, x);
    }
    forall u | 0 <= u < |s.threads| ensures ThreadOk(s', u, s'.threads[u]) {
      assert ThreadOk(s, u, s.threads[u]);
      if u != t { CopiesStay(s, s', t, u); }
    }
    LaterLog(s, s', db0);
  }

  lemma LaterLog(s: State, s': State, db0: Db)
    requires LogOk(s, db0) && s'.db == s.db && s'.log == s.log && s.clock <= s'.clock
    ensures LogOk(s', db0)
  {
  }

  lemma MovesRow(s: State, s': State, t: nat, x: nat)
    requires t < |s.threads| && x < |s.rows| == |s.db| && RowOk(s, x)
    requires |s'.threads| == |s.threads| && s'.threads == s.threads[t := s'.threads[t]]
    requires s'.rows == s.rows && s'.db == s.db && s.clock <= s'.clock
    requires (Lo(s'.threads[t]) == Hi(s'.threads[t]) && Lo(s.threads[t]) == Hi(s.threads[t]))
             || (Lo(s'.threads[t]) == Lo(s.threads[t]) && Hi(s'.threads[t]) == Hi(s.threads[t]) && Acc(s'.threads[t]) == Acc(s.threads[t]))
    requires forall k :: Owes(s.threads[t], x, k) ==> Owes(s'.threads[t], x, k)
    ensures RowOk(s', x)
  {
    hide Owed, Owes, LatchOk, Lo, Hi, Acc;
    OwedStays(s, s', t, x);
    LatchStays(s, s', t, x);
  }

  lemma LatchStays(s: State, s': State, t: nat, x: nat)
    requires t < |s.threads| && x < |s.rows| == |s'.rows| && LatchOk(s, x) && s'.rows[x].latch == s.rows[x].latch
    requires |s'.threads| == |s.threads| && s'.threads == s.threads[t := s'.threads[t]]
    requires (Lo(s'.threads[t]) == Hi(s'.threads[t]) && Lo(s.threads[t]) == Hi(s.threads[t]))
             || (Lo(s'.threads[t]) == Lo(s.threads[t]) && Hi(s'.threads[t]) == Hi(s.threads[t]) && Acc(s'.threads[t]) == Acc(s.threads[t]))
    ensures LatchOk(s', x)
  {
    hide Lo, Hi, Acc;
    var l := s.rows[x].latch;
    if l.HeldBy? {
      var k :| Lo(s.threads[l.thd]) <= k < Hi(s.threads[l.thd]) <= |Acc(s.threads[l.thd])| && Acc(s.threads[l.thd])[k].row == x;
      assert Acc(s'.threads[l.thd])[k].row == x;
    }
  }

  lemma OwedStays(s: State, s': State, t: nat, x: nat)
    requires t < |s.threads| && |s'.threads| == |s.threads| && s'.threads == s.threads[t := s'.threads[t]]
    requires forall k :: Owes(s.threads[t], x, k) ==> Owes(s'.threads[t], x, k)
    ensures Owed(s, x) ==> Owed(s', x)
  {
    if Owed(s, x) {
      var u, k :| 0 <= u < |s.threads| && Owes(s.threads[u], x, k);
      assert Owes(s'.threads[u], x, k);
    }
  }

  lemma CopyStays(s: State, s': State, t: nat, start: nat, a: Access)
    requires CopyOk(s, start, a) && t < |s.threads|
    requires |s'.threads| == |s.threads| && s'.threads == s.threads[t := s'.threads[t]]
    requires s'.rows == s.rows && s'.db == s.db
    requires forall x, k :: Owes(s.threads[t], x, k) ==> Owes(s'.threads[t], x, k) && s'.threads[t].end == s.threads[t].end
    ensures CopyOk(s', start, a)
  {
    if a.orig != s.db[a.row] && start >= s.rows[a.row].wts {
      var u, k :| 0 <= u < |s.threads| && Owes(s.threads[u], a.row, k) && start < s.threads[u].end;
      assert Owes(s'.threads[u], a.row, k) && start < s'.threads[u].end;
    }
  }

  lemma CopiesStay(s: State, s': State, t: nat, u: nat)
    requires t < |s.threads| && u < |s.threads| && u != t && ThreadOk(s, u, s.threads[u])
    requires |s'.threads| == |s.threads| && s'.threads == s.threads[t := s'.threads[t]]
    requires s'.rows == s.rows && s'.db == s.db && s.clock <= s'.clock
    requires forall x, k :: Owes(s.threads[t], x, k) ==> Owes(s'.threads[t], x, k) && s'.threads[t].end == s.threads[t].end
    ensures ThreadOk(s', u, s'.threads[u])
  {
    var th := s.threads[u];
    if th.Running? || th.Latching? {
      forall k | 0 <= k < |th.acc| ensures CopyOk(s', th.start, th.acc[k]) { CopyStays(s, s', t, th.start, th.acc[k]); }
    }
  }

  // ---------------------------------------------------------------- steps before validation

  /** A row whose latch is free holds its committed value. */
  lemma OpenIsCommitted(s: State, x: nat, db0: Db)
    requires Inv(s, db0) && x < |s.rows| && s.rows[x].latch.Open?
    ensures s.rows[x].data == s.db[x]
  {
    assert RowOk(s, x);
    if Owed(s, x) {
      var t, k :| 0 <= t < |s.threads| && Owes(s.threads[t], x, k);
      OwerHolds(s, t, x, k);
    }
  }

  lemma BeginKeeps(s: State, s': State, t: nat, db0: Db)
    requires Inv(s, db0) && Begin(s, s', t)
    ensures Inv(s', db0)
  {
    ThreadMoves(s, s', t, db0);
  }

  lemma ReadKeeps(s: State, s': State, t: nat, x: nat, write: bool, db0: Db)
    requires Inv(s, db0) && Read(s, s', t, x, write)
    ensures Inv(s', db0)
  {
    var th, th' := s.threads[t], s'.threads[t];
    assert ThreadOk(s, t, th);
    OpenIsCommitted(s, x, db0);
    if th'.Running? {
      forall k | 0 <= k < |th'.acc| ensures CopyOk(s', th.start, th'.acc[k]) {
        if k < |th.acc| { CopyStays(s, s', t, th.start, th.acc[k]); }
      }
    }
    ThreadMoves(s, s', t, db0);
  }

  lemma LocalWriteKeeps(s: State, s': State, t: nat, k: nat, v: Val, db0: Db)
    requires Inv(s, db0) && LocalWrite(s, s', t, k, v)
    ensures Inv(s', db0)
  {
    var th, th' := s.threads[t], s'.threads[t];
    assert ThreadOk(s, t, th);
    forall j | 0 <= j < |th'.acc| ensures CopyOk(s', th.start, th'.acc[j]) {
      CopyStays(s, s', t, th.start, th.acc[j]);
    }
    ThreadMoves(s, s', t, db0);
  }

  lemma StopKeeps(s: State, s': State, t: nat, db0: Db)
    requires Inv(s, db0) && (Rollback(s, s', t) || GiveUp(s, s', t) || WrittenBack(s, s', t) || Finish(s, s', t))
    ensures Inv(s', db0)
  {
    hide LogOk, CopyOk, RowOk;
    assert ThreadOk(s, t, s.threads[t]);
    ThreadMoves(s, s', t, db0);
  }

  lemma ValidateKeeps(s: State, s': State, t: nat, acc: seq<Access>, db0: Db)
    requires Inv(s, db0) && Validate(s, s', t, acc)
    ensures Inv(s', db0)
  {
    var th := s.threads[t];
    assert ThreadOk(s, t, th);
    forall k | 0 <= k < |acc| ensures CopyOk(s', th.start, acc[k]) {
      assert acc[k] in multiset(acc);
      var j :| 0 <= j < |th.acc| && th.acc[j] == acc[k];
      CopyStays(s, s', t, th.start, th.acc[j]);
    }
    SortedIsDistinct(th.acc, acc);
    ThreadMoves(s, s', t, db0);
  }

  /** Reordering the accesses does not make two of them meet. */
  lemma SortedIsDistinct(acc: seq<Access>, sorted: seq<Access>)
    requires Distinct(acc) && multiset(sorted) == multiset(acc)
    ensures Distinct(sorted)
  {
    forall j, k | 0 <= j < k < |sorted| ensures sorted[j].row != sorted[k].row {
      var a, b := sorted[j], sorted[k];
      assert a in multiset(acc) && b in multiset(acc);
      if a == b {
        TwiceCounts(sorted, j, k);
        OnceCounts(acc, a);
      }
    }
  }

  lemma TwiceCounts(acc: seq<Access>, j: nat, k: nat)
    requires j < k < |acc| && acc[j] == acc[k]
    ensures multiset(acc)[acc[j]] >= 2
  {
    assert acc == acc[..k] + acc[k..];
    assert acc[j] in acc[..k] && acc[k] in acc[k..];
  }

  lemma {:induction false} OnceCounts(acc: seq<Access>, a: Access)
    requires Distinct(acc)
    ensures multiset(acc)[a] <= 1
  {
    if acc != [] {
      var n := |acc| - 1;
      assert acc == acc[..n] + [acc[n]];
      OnceCounts(acc[..n], a);
      if acc[n] == a { assert a !in acc[..n]; }
    }
  }

  // ---------------------------------------------------------------- latches

  /** A latch that changes hands, the row's contents staying. */
  ghost predicate Hands(s: State, s': State, t: nat, x: nat) {
    && t < |s.threads| && x < |s.rows|
    && |s'.threads| == |s.threads| && s'.threads == s.threads[t := s'.threads[t]]
    && |s'.rows| == |s.rows| && s'.rows == s.rows[x := Row(s.rows[x].wts, s.rows[x].data, s'.rows[x].latch)]
    && s'.db == s.db && s'.log == s.log && s'.clock == s.clock
    && (s.rows[x].latch.Open? || s.rows[x].latch == HeldBy(t))
    && !s.threads[t].Writing? && Acc(s'.threads[t]) == Acc(s.threads[t]) && Hi(s'.threads[t]) <= |Acc(s.threads[t])|
    && forall k :: Lo(s.threads[t]) <= k < Hi(s.threads[t]) <= |Acc(s.threads[t])| && Acc(s.threads[t])[k].row != x ==>
         Lo(s'.threads[t]) <= k < Hi(s'.threads[t])
  }

  lemma HandsRow(s: State, s': State, t: nat, x: nat, y: nat)
    requires Hands(s, s', t, x) && y < |s.rows| == |s.db| && y != x && RowOk(s, y)
    ensures RowOk(s', y)
  {
    OwedStays(s, s', t, y);
    if s.rows[y].latch.HeldBy? {
      var u := s.rows[y].latch.thd;
      var k :| Lo(s.threads[u]) <= k < Hi(s.threads[u]) <= |Acc(s.threads[u])| && Acc(s.threads[u])[k].row == y;
      assert Acc(s'.threads[u])[k].row == y;
    }
  }

  lemma HandsThread(s: State, s': State, t: nat, x: nat, u: nat)
    requires Hands(s, s', t, x) && u < |s.threads| && u != t && ThreadOk(s, u, s.threads[u])
    ensures ThreadOk(s', u, s'.threads[u])
  {
    hide CopyOk;
    var th := s.threads[u];
    if th.Running? || th.Latching? {
      forall k | 0 <= k < |th.acc| ensures CopyOk(s', th.start, th.acc[k]) { CopySurvives(s, s', t, th.start, th.acc[k]); }
    } else if th.Writing? {
      forall k | 0 <= k < th.i && th.acc[k].write ensures ToWrite(s', th.end, th.acc[k]) {
        assert ToWrite(s, th.end, th.acc[k]);
      }
    }
  }

  lemma LatchMoves(s: State, s': State, t: nat, x: nat, db0: Db)
    requires Inv(s, db0) && Hands(s, s', t, x)
    requires ThreadOk(s', t, s'.threads[t]) && RowOk(s', x)
    ensures Inv(s', db0)
  {
    hide RowOk, ThreadOk;
    forall y | 0 <= y < |s.rows| ensures RowOk(s', y) {
      if y != x { HandsRow(s, s', t, x, y); }
    }
    forall u | 0 <= u < |s.threads| ensures ThreadOk(s', u, s'.threads[u]) {
      if u != t { HandsThread(s, s', t, x, u); }
    }
  }

  lemma CopySurvives(s: State, s': State, t: nat, start: nat, a: Access)
    requires CopyOk(s, start, a) && t < |s.threads| && !s.threads[t].Writing?
    requires |s'.threads| == |s.threads| && s'.threads == s.threads[t := s'.threads[t]]
    requires |s'.rows| == |s.rows| && s'.db == s.db && forall x :: 0 <= x < |s.rows| ==> s'.rows[x].wts == s.rows[x].wts
    ensures CopyOk(s', start, a)
  {
    if a.orig != s.db[a.row] && start >= s.rows[a.row].wts {
      var u, k :| 0 <= u < |s.threads| && Owes(s.threads[u], a.row, k) && start < s.threads[u].end;
      assert Owes(s'.threads[u], a.row, k);
    }
  }

  lemma LatchRowThread(s: State, s': State, t: nat)
    requires LatchRow(s, s', t) && ThreadOk(s, t, s.threads[t]) && |s.db| == |s.rows|
    ensures ThreadOk(s', t, s'.threads[t])
  {
    hide CopyOk, Distinct;
    var th, th' := s.threads[t], s'.threads[t];
    if th'.Latching? {
      forall k | 0 <= k < |th.acc| ensures CopyOk(s', th.start, th.acc[k]) { CopySurvives(s, s', t, th.start, th.acc[k]); }
    }
  }

  /** A latch that is free can be taken. */
  lemma LatchRowRow(s: State, s': State, t: nat, x: nat)
    requires LatchRow(s, s', t) && |s.db| == |s.rows| && x == s.threads[t].acc[s.threads[t].n].row
    requires RowOk(s, x) && s.rows[x].data == s.db[x]
    ensures RowOk(s', x)
  {
    hide Owed;
    assert Acc(s'.threads[t])[s.threads[t].n].row == x;
  }

  lemma LatchRowKeeps(s: State, s': State, t: nat, db0: Db)
    requires Inv(s, db0) && LatchRow(s, s', t)
    ensures Inv(s', db0)
  {
    hide LogOk, CopyOk, ToWrite, Owed, Distinct, LatchOk;
    var th := s.threads[t];
    var x := th.acc[th.n].row;
    assert ThreadOk(s, t, th) && RowOk(s, x);
    OpenIsCommitted(s, x, db0);
    LatchRowThread(s, s', t);
    LatchRowRow(s, s', t, x);
    LatchMoves(s, s', t, x, db0);
  }

  lemma ReleaseKeeps(s: State, s': State, t: nat, db0: Db)
    requires Inv(s, db0) && Release(s, s', t)
    ensures Inv(s', db0)
  {
    var th := s.threads[t];
    var x := th.acc[th.k].row;
    assert ThreadOk(s, t, th) && RowOk(s, x);
    if Owed(s, x) {
      var u, k :| 0 <= u < |s.threads| && Owes(s.threads[u], x, k);
      assert ThreadOk(s, u, s.threads[u]);
      OwerHolds(s, u, x, k);
    }
    assert forall k :: th.k < k < |th.acc| ==> th.acc[k].row != x;
    LatchMoves(s, s', t, x, db0);
  }

  // ---------------------------------------------------------------- committing

  /** A validated copy is the committed contents. */
  lemma ValidIsCurrent(s: State, t: nat, k: nat, db0: Db)
    requires Inv(s, db0) && t < |s.threads| && s.threads[t].Latching? && k < s.threads[t].n <= |s.threads[t].acc|
    ensures var a := s.threads[t].acc[k];
            a.row < |s.rows| && a.orig == s.db[a.row] && s.rows[a.row].latch == HeldBy(t)
  {
    var th := s.threads[t];
    assert ThreadOk(s, t, th) && CopyOk(s, th.start, th.acc[k]);
    var x := th.acc[k].row;
    if u, j :| 0 <= u < |s.threads| && Owes(s.threads[u], x, j) {
      assert ThreadOk(s, u, s.threads[u]);
      OwerHolds(s, u, x, j);
    }
  }

  lemma CommitIsLegal(s: State, s': State, t: nat, db0: Db)
    requires Inv(s, db0) && Commit(s, s', t)
    ensures LogOk(s', db0)
  {
    hide RowOk, ThreadOk, SlotOf;
    var th := s.threads[t];
    var txn := TxnOf(|s.rows|, s.clock + 1, th.acc);
    forall x | x in txn.seen ensures x < |s.db| && txn.seen[x] == s.db[x] {
      ValidIsCurrent(s, t, SlotOf(th.acc, x), db0);
    }
    assert s'.log[..|s.log|] == s.log && s'.log[|s.log|] == txn;
  }

  /** The commit changes the committed contents of exactly the rows it writes. */
  lemma CommitDb(s: State, s': State, t: nat, x: nat)
    requires Commit(s, s', t) && Distinct(s.threads[t].acc) && x < |s.rows| == |s.db|
    ensures |s'.db| == |s.db|
    ensures forall k :: 0 <= k < |s.threads[t].acc| && s.threads[t].acc[k].row == x && s.threads[t].acc[k].write ==>
              s'.db[x] == s.threads[t].acc[k].data
    ensures !Overwrites(s.threads[t].acc, x) ==> s'.db[x] == s.db[x]
  {
    var acc := s.threads[t].acc;
    if Touches(acc, x) {
      var j := SlotOf(acc, x);
      forall k | 0 <= k < |acc| && acc[k].row == x ensures k == j {}
    }
  }

  lemma CommitterOk(s: State, s': State, t: nat, db0: Db)
    requires Inv(s, db0) && Commit(s, s', t)
    ensures ThreadOk(s', t, s'.threads[t])
  {
    hide LogOk, TxnOf, CopyOk;
    var th := s.threads[t];
    assert ThreadOk(s, t, th);
    forall k | 0 <= k < |th.acc| && th.acc[k].write ensures ToWrite(s', s.clock + 1, th.acc[k]) {
      assert RowOk(s, th.acc[k].row);
      CommitDb(s, s', t, th.acc[k].row);
    }
  }

  lemma CommitKeepsThread(s: State, s': State, t: nat, u: nat, db0: Db)
    requires Inv(s, db0) && Commit(s, s', t) && u < |s.threads| && u != t
    ensures ThreadOk(s', u, s'.threads[u])
  {
    hide LogOk, RowOk, TxnOf, CopyOk, Distinct;
    var th, other := s.threads[t], s.threads[u];
    assert ThreadOk(s, t, th) && ThreadOk(s, u, other);
    if other.Running? || other.Latching? {
      forall k | 0 <= k < |other.acc| ensures CopyOk(s', other.start, other.acc[k]) {
        CommitKeepsCopy(s, s', t, other.start, other.acc[k]);
      }
    } else if other.Writing? {
      forall k | 0 <= k < other.i && other.acc[k].write ensures ToWrite(s', other.end, other.acc[k]) {
        assert ToWrite(s, other.end, other.acc[k]);
        OwerHolds(s, u, other.acc[k].row, k);
        CommitDb(s, s', t, other.acc[k].row);
      }
    }
  }

  lemma CommitKeepsCopy(s: State, s': State, t: nat, start: nat, a: Access)
    requires Commit(s, s', t) && CopyOk(s, start, a) && start <= s.clock && Distinct(s.threads[t].acc)
    ensures CopyOk(s', start, a)
  {
    hide TxnOf;
    var acc := s.threads[t].acc;
    CommitDb(s, s', t, a.row);
    if k :| 0 <= k < |acc| && acc[k].row == a.row && acc[k].write {
      assert Owes(s'.threads[t], a.row, k);
    } else if a.orig != s.db[a.row] && start >= s.rows[a.row].wts {
      var u, k :| 0 <= u < |s.threads| && Owes(s.threads[u], a.row, k) && start < s.threads[u].end;
      assert Owes(s'.threads[u], a.row, k) && start < s'.threads[u].end;
    }
  }

  lemma CommitKeepsRow(s: State, s': State, t: nat, x: nat, db0: Db)
    requires Inv(s, db0) && Commit(s, s', t) && x < |s.rows|
    ensures |s'.rows| == |s'.db| && RowOk(s', x)
  {
    hide LogOk, TxnOf, CopyOk, HoldsOk, ToWrite, LatchOk;
    var acc := s.threads[t].acc;
    assert RowOk(s, x) && ThreadOk(s, t, s.threads[t]);
    CommitDb(s, s', t, x);
    if k :| 0 <= k < |acc| && acc[k].row == x && acc[k].write {
      assert Owes(s'.threads[t], x, k);
    } else if Owed(s, x) {
      var u, k :| 0 <= u < |s.threads| && Owes(s.threads[u], x, k);
      assert Owes(s'.threads[u], x, k);
    }
    LatchStays(s, s', t, x);
  }

  lemma CommitKeeps(s: State, s': State, t: nat, db0: Db)
    requires Inv(s, db0) && Commit(s, s', t)
    ensures Inv(s', db0)
  {
    CommitIsLegal(s, s', t, db0);
    forall x | 0 <= x < |s'.rows| ensures RowOk(s', x) { CommitKeepsRow(s, s', t, x, db0); }
    forall u | 0 <= u < |s'.threads| ensures ThreadOk(s', u, s'.threads[u]) {
      if u == t { CommitterOk(s, s', t, db0); } else { CommitKeepsThread(s, s', t, u, db0); }
    }
  }

  // ---------------------------------------------------------------- writing back

  lemma WriteBackKeepsRow(s: State, s': State, t: nat, y: nat, db0: Db)
    requires Inv(s, db0) && WriteBack(s, s', t) && y < |s.rows|
    ensures |s'.rows| == |s'.db| && RowOk(s', y)
  {
    hide LogOk, CopyOk, HoldsOk, LatchOk, Distinct;
    var th := s.threads[t];
    var a := th.acc[th.i - 1];
    assert RowOk(s, y) && ThreadOk(s, t, th);
    if Owed(s, y) && !(a.write && a.row == y) {
      var u, k :| 0 <= u < |s.threads| && Owes(s.threads[u], y, k);
      assert Owes(s'.threads[u], y, k);
    }
    LatchStays(s, s', t, y);
  }

  lemma WriterOk(s: State, s': State, t: nat, db0: Db)
    requires Inv(s, db0) && WriteBack(s, s', t)
    ensures ThreadOk(s', t, s'.threads[t])
  {
    hide LogOk, RowOk, CopyOk;
    assert ThreadOk(s, t, s.threads[t]);
    var th := s.threads[t];
    forall k | 0 <= k < th.i - 1 && th.acc[k].write ensures ToWrite(s', th.end, th.acc[k]) {
      assert ToWrite(s, th.end, th.acc[k]) && th.acc[k].row != th.acc[th.i - 1].row;
    }
  }

  lemma WriteBackKeepsThread(s: State, s': State, t: nat, u: nat, db0: Db)
    requires Inv(s, db0) && WriteBack(s, s', t) && u < |s.threads| && u != t
    ensures ThreadOk(s', u, s'.threads[u])
  {
    hide LogOk, RowOk, CopyOk, Distinct, Owes, ToWrite, HoldsOk;
    var th, other := s.threads[t], s.threads[u];
    assert ThreadOk(s, t, th) && ThreadOk(s, u, other);
    WriteBackKeepsHolds(s, s', t, u);
    if other.Running? || other.Latching? {
      forall k | 0 <= k < |other.acc| ensures CopyOk(s', other.start, other.acc[k]) {
        assert CopyOk(s, other.start, other.acc[k]);
        WriteBackKeepsCopy(s, s', t, other.start, other.acc[k]);
      }
      if other.Latching? { WriteBackKeepsChecks(s, s', t, u); }
    } else if other.Writing? {
      forall k | 0 <= k < other.i && other.acc[k].write ensures ToWrite(s', other.end, other.acc[k]) {
        WriteBackKeepsOwed(s, s', t, u, k);
      }
    }
  }

  lemma WriteBackKeepsHolds(s: State, s': State, t: nat, u: nat)
    requires WriteBack(s, s', t) && u < |s.threads| && u != t && HoldsOk(s.rows, u, s.threads[u])
    ensures s'.threads[u] == s.threads[u] && HoldsOk(s'.rows, u, s'.threads[u])
    ensures s'.clock == s.clock && |s'.rows| == |s.rows| && s'.db == s.db
  {
  }

  /** The rows that another thread has latched are not written. */
  lemma WriteBackKeepsChecks(s: State, s': State, t: nat, u: nat)
    requires WriteBack(s, s', t) && u < |s.threads| && u != t && s.threads[u].Latching?
    requires ThreadOk(s, t, s.threads[t]) && ThreadOk(s, u, s.threads[u])
    ensures forall k :: 0 <= k < s.threads[u].n ==>
              s.threads[u].acc[k].row < |s'.rows| && s'.rows[s.threads[u].acc[k].row].wts <= s.threads[u].start
  {
    hide CopyOk, Distinct, ToWrite;
    assert s.rows[s.threads[t].acc[s.threads[t].i - 1].row].latch == HeldBy(t);
  }

  lemma WriteBackKeepsOwed(s: State, s': State, t: nat, u: nat, k: int)
    requires WriteBack(s, s', t) && u < |s.threads| && u != t && s.threads[u].Writing?
    requires ThreadOk(s, t, s.threads[t]) && ThreadOk(s, u, s.threads[u])
    requires 0 <= k < s.threads[u].i && s.threads[u].acc[k].write
    ensures ToWrite(s', s.threads[u].end, s.threads[u].acc[k])
  {
    hide CopyOk, Distinct;
    assert ToWrite(s, s.threads[u].end, s.threads[u].acc[k]);
    assert s.rows[s.threads[t].acc[s.threads[t].i - 1].row].latch == HeldBy(t);
  }

  lemma WriteBackKeepsCopy(s: State, s': State, t: nat, start: nat, a: Access)
    requires WriteBack(s, s', t) && CopyOk(s, start, a) && ThreadOk(s, t, s.threads[t])
    ensures CopyOk(s', start, a)
  {
    hide HoldsOk, Distinct;
    var b := s.threads[t].acc[s.threads[t].i - 1];
    assert b.write ==> ToWrite(s, s.threads[t].end, b);
    if a.orig != s.db[a.row] && start >= s.rows[a.row].wts {
      var u, k :| 0 <= u < |s.threads| && Owes(s.threads[u], a.row, k) && start < s.threads[u].end;
      if u != t || k < s.threads[t].i - 1 {
        assert Owes(s'.threads[u], a.row, k) && start < s'.threads[u].end;
      }
    }
  }

  lemma WriteBackKeeps(s: State, s': State, t: nat, db0: Db)
    requires Inv(s, db0) && WriteBack(s, s', t)
    ensures Inv(s', db0)
  {
    forall x | 0 <= x < |s'.rows| ensures RowOk(s', x) { WriteBackKeepsRow(s, s', t, x, db0); }
    forall u | 0 <= u < |s'.threads| ensures ThreadOk(s', u, s'.threads[u]) {
      if u == t { WriterOk(s, s', t, db0); } else { WriteBackKeepsThread(s, s', t, u, db0); }
    }
  }

  // ---------------------------------------------------------------- whole runs

  lemma StepKeeps(s: State, s': State, t: nat, db0: Db)
    requires Inv(s, db0) && Step(s, s', t)
    ensures Inv(s', db0)
  {
    hide Inv;
    if Begin(s, s', t) { BeginKeeps(s, s', t, db0); }
    else if x, w :| Read(s, s', t, x, w) { ReadKeeps(s, s', t, x, w, db0); }
    else if k, v :| LocalWrite(s, s', t, k, v) { LocalWriteKeeps(s, s', t, k, v, db0); }
    else if acc :| Validate(s, s', t, acc) { ValidateKeeps(s, s', t, acc, db0); }
    else if LatchRow(s, s', t) { LatchRowKeeps(s, s', t, db0); }
    else if Commit(s, s', t) { CommitKeeps(s, s', t, db0); }
    else if WriteBack(s, s', t) { WriteBackKeeps(s, s', t, db0); }
    else if Release(s, s', t) { ReleaseKeeps(s, s', t, db0); }
    else { StopKeeps(s, s', t, db0); }
  }

  lemma InitInv(s: State, db: Db)
    requires Init(s, db)
    ensures Inv(s, db)
  {
  }

  lemma {:induction false} RunInv(run: seq<State>, who: seq<nat>, db: Db)
    requires Run(run, who, db)
    ensures Inv(run[|run| - 1], db)
  {
    hide Inv, Step, Init;
    if |run| == 1 {
      InitInv(run[0], db);
    } else {
      var n := |run| - 2;
      assert Step(run[n], run[n + 1], who[n]);
      RunInv(run[..n + 1], who[..n], db);
      StepKeeps(run[n], run[n + 1], who[n], db);
    }
  }

  // ---------------------------------------------------------------- what the log reports

  lemma BodiesDistinct(s: State, t: nat, db: Db)
    requires Inv(s, db) && t < |s.threads| && (s.threads[t].Running? || s.threads[t].Latching?)
    ensures DistinctRows(s.threads[t].acc, |s.rows|)
  {
    hide LogOk, RowOk, HoldsOk;
    assert ThreadOk(s, t, s.threads[t]);
    forall k | 0 <= k < |s.threads[t].acc| ensures s.threads[t].acc[k].row < |s.rows| { assert CopyOk(s, s.threads[t].start, s.threads[t].acc[k]); }
  }

  lemma StartsBlank(s: State, db: Db)
    requires Init(s, db)
    ensures forall t :: 0 <= t < |s.threads| ==> Accounted(s.threads[t], BLANK)
  {
  }

  /** Over every run, the accesses of every thread say what its body has been given and has set,
      and so does the log for the transactions that have committed. */
  lemma {:induction false} RunReports(run: seq<State>, who: seq<nat>, db: Db)
    requires Run(run, who, db)
    ensures Reports(run[|run| - 1].log, Books(DeedsOf(run, who)))
    ensures forall t :: 0 <= t < |run[|run| - 1].threads| ==> Accounted(run[|run| - 1].threads[t], AccountOf(DeedsOf(run, who), t))
  {
    hide Inv, Step, Accounted, DeedOf, Books, AccountOf, IsReport;
    if |run| == 1 {
      StartsBlank(run[0], db);
      NoDeeds();
    } else {
      var n := |run| - 2;
      var s, s', t, deeds := run[n], run[n + 1], who[n], DeedsOf(run[..n + 1], who[..n]);
      assert Step(s, s', t);
      RunReports(run[..n + 1], who[..n], db);
      RunInv(run[..n + 1], who[..n], db);
      StepActs(s, s', t);
      if s.threads[t].Running? || s.threads[t].Latching? { BodiesDistinct(s, t, db); }
      StepReports(s, s', t, AccountOf(deeds, t));
      DeedsGrow(run, who);
      NextDeed(deeds, t, DeedOf(s, s', t));
      NextReports(deeds, t, DeedOf(s, s', t), s.log, s'.log);
    }
  }

  // ---------------------------------------------------------------- serializability

  /** No committed transaction still has rows to write back. */
  ghost predicate Quiet(s: State) {
    forall t :: 0 <= t < |s.threads| ==> !s.threads[t].Writing?
  }

  /** Serializability: after any run the log reports all that the bodies of the committed
      transactions have been given and have set; in the order of the commits, which is that of the
      end timestamps, they replay serially with exactly these values, and the rows hold the
      result. */
  lemma Serializable(run: seq<State>, who: seq<nat>, db: Db)
    requires Run(run, who, db)
    ensures var s := run[|run| - 1];
      && Reports(s.log, Books(DeedsOf(run, who)))
      && Sorted(s.log) && Replays(db, s.log)
      && (Quiet(s) ==> |s.rows| == |db| && forall x :: 0 <= x < |db| ==> s.rows[x].data == Exec(db, s.log)[x])
  {
    RunInv(run, who, db);
    RunReports(run, who, db);
    var s := run[|run| - 1];
    if Quiet(s) {
      forall x | 0 <= x < |s.rows| ensures s.rows[x].data == s.db[x] { assert RowOk(s, x); }
    }
  }

  // ---------------------------------------------------------------- latches

  /** The thread waits for the latch of the row it would take next, and the other has it. */
  ghost predicate LatchWaits(s: State, t: nat, u: nat) {
    && t < |s.threads| && s.threads[t].Latching? && s.threads[t].n < |s.threads[t].acc|
    && s.threads[t].acc[s.threads[t].n].row < |s.rows|
    && s.rows[s.threads[t].acc[s.threads[t].n].row].latch == HeldBy(u)
  }

  ghost predicate Ascending(acc: seq<Access>) {
    forall j, k :: 0 <= j < k < |acc| ==> acc[j].row < acc[k].row
  }

  /** What the sort makes of the accesses before they are latched. */
  ghost predicate SortedVersion(before: seq<Access>, after: seq<Access>) {
    multiset(after) == multiset(before) && (Distinct(before) ==> Ascending(after))
  }

  /** A validation that starts in this step sorts the accesses. */
  ghost predicate Sorts(s: State, s': State, t: nat) {
    t < |s.threads| && t < |s'.threads| && s.threads[t].Running? && s'.threads[t].Latching? ==>
      SortedVersion(s.threads[t].acc, s'.threads[t].acc)
  }

  ghost predicate SortingRun(run: seq<State>, who: seq<nat>) {
    |who| == |run| - 1 && forall i :: 0 <= i < |who| ==> Sorts(run[i], run[i + 1], who[i])
  }

  ghost predicate AllAscending(s: State) {
    forall t :: 0 <= t < |s.threads| && s.threads[t].Latching? ==> Ascending(s.threads[t].acc)
  }

  /** A latching thread comes from a validation or has been latching before. */
  lemma LatchingFrom(s: State, s': State, t: nat)
    requires Step(s, s', t)
    ensures t < |s.threads| == |s'.threads| && forall u :: 0 <= u < |s.threads| && u != t ==> s'.threads[u] == s.threads[u]
    ensures s'.threads[t].Latching? ==>
              s.threads[t].Running? || (s.threads[t].Latching? && s'.threads[t].acc == s.threads[t].acc)
  {
    hide Apply, TxnOf, Touches;
  }

  lemma StepAscends(s: State, s': State, t: nat, db: Db)
    requires Inv(s, db) && Step(s, s', t) && Sorts(s, s', t) && AllAscending(s)
    ensures AllAscending(s')
  {
    hide Step, Ascending;
    LatchingFrom(s, s', t);
    if s.threads[t].Running? { RunsDistinct(s, t, db); }
  }

  lemma RunsDistinct(s: State, t: nat, db: Db)
    requires Inv(s, db) && t < |s.threads| && s.threads[t].Running?
    ensures Distinct(s.threads[t].acc)
  {
    assert ThreadOk(s, t, s.threads[t]);
  }

  lemma {:induction false} RunAscends(run: seq<State>, who: seq<nat>, db: Db)
    requires Run(run, who, db) && SortingRun(run, who)
    ensures AllAscending(run[|run| - 1])
  {
    hide Inv, Step, Init, Sorts, AllAscending;
    if |run| == 1 {
      NobodyLatches(run[0], db);
    } else {
      var n := |run| - 2;
      assert Step(run[n], run[n + 1], who[n]) && Sorts(run[n], run[n + 1], who[n]);
      RunInv(run[..n + 1], who[..n], db);
      RunAscends(run[..n + 1], who[..n], db);
      StepAscends(run[n], run[n + 1], who[n], db);
    }
  }

  lemma NobodyLatches(s: State, db: Db)
    requires Init(s, db)
    ensures AllAscending(s)
  {
  }

  ghost predicate LatchChain(s: State, p: seq<nat>) {
    forall i :: 0 < i < |p| ==> LatchWaits(s, p[i - 1], p[i])
  }

  /** Whoever has a latch that is waited for, and waits himself, waits for a later row. */
  lemma WaitsClimb(s: State, t: nat, u: nat, v: nat, db: Db)
    requires Inv(s, db) && LatchWaits(s, t, u) && LatchWaits(s, u, v) && Ascending(s.threads[u].acc)
    ensures s.threads[t].acc[s.threads[t].n].row < s.threads[u].acc[s.threads[u].n].row
  {
    var x := s.threads[t].acc[s.threads[t].n].row;
    assert RowOk(s, x) && LatchOk(s, x);
    var k :| Lo(s.threads[u]) <= k < Hi(s.threads[u]) && Acc(s.threads[u])[k].row == x;
    assert s.threads[u].acc[k].row < s.threads[u].acc[s.threads[u].n].row;
  }

  lemma {:induction false} ChainClimbs(s: State, db: Db, p: seq<nat>, n: nat)
    requires Inv(s, db) && AllAscending(s) && LatchChain(s, p) && 0 < n < |p| - 1
    ensures LatchWaits(s, p[0], p[1]) && LatchWaits(s, p[n], p[n + 1])
    ensures s.threads[p[0]].acc[s.threads[p[0]].n].row < s.threads[p[n]].acc[s.threads[p[n]].n].row
  {
    assert LatchWaits(s, p[0], p[1]) && LatchWaits(s, p[n - 1], p[n]) && LatchWaits(s, p[n], p[n + 1]);
    WaitsClimb(s, p[n - 1], p[n], p[n + 1], db);
    if n > 1 { ChainClimbs(s, db, p, n - 1); }
  }

  /** With the accesses sorted before they are latched, no chain of threads waiting for each
      other's latches closes into a circle. */
  lemma NoLatchCircle(run: seq<State>, who: seq<nat>, db: Db, p: seq<nat>)
    requires Run(run, who, db) && SortingRun(run, who) && |p| > 1 && LatchChain(run[|run| - 1], p)
    ensures p[|p| - 1] != p[0]
  {
    var s := run[|run| - 1];
    RunInv(run, who, db);
    RunAscends(run, who, db);
    if p[|p| - 1] == p[0] {
      var q := p + [p[1]];
      forall i | 0 < i < |q| ensures LatchWaits(s, q[i - 1], q[i]) {
        if i < |p| { assert LatchWaits(s, p[i - 1], p[i]); } else { assert LatchWaits(s, p[0], p[1]); }
      }
      ChainClimbs(s, db, q, |p| - 1);
    }
  }
}
