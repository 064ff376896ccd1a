/** A committed transaction under two-phase locking reports everything its body was given and
    everything its body has set: what it sets in place is still there when it commits. */
module TwoPhaseReports {
  import opened Serial
  import opened Ledger
  import LockTable
  import opened TwoPhase

  /** What a step means for the transaction body. */
  ghost function DeedOf(s: State, s': State, t: nat): Deed {
    if t >= |s.threads| || t >= |s'.threads| then Other
    else
      var b, a := s.threads[t], s'.threads[t];
      if b.Idle? && a.Running? then Starts
      else if b.Asking? && a.Running? && b.row < |s.rows| then Gets(b.row, s.rows[b.row].data, b.write)
      else if b.Running? && a.Running? then
        if exists k, v :: Write(s, s', t, k, v)
        then var k: nat, v: Val :| Write(s, s', t, k, v); Sets(b.acc[k].row, v)
        else Other
      else if b.Running? && a.Ending? && !a.abort then Commits
      else Other
  }

  ghost function DeedsOf(run: seq<State>, who: seq<nat>): (d: Deeds)
    requires |run| == |who| + 1
    ensures |d| == |who|
  {
    seq(|who|, i requires 0 <= i < |who| => (who[i], DeedOf(run[i], run[i + 1], who[i])))
  }

  lemma DeedsGrow(run: seq<State>, who: seq<nat>)
    requires |run| == |who| + 1 > 1
    ensures var n := |who| - 1;
            DeedsOf(run, who) == DeedsOf(run[..n + 1], who[..n]) + [(who[n], DeedOf(run[n], run[n + 1], who[n]))]
  {
  }

  /** The accesses, and the rows changed in place, say exactly what the account says. */
  ghost predicate Lists(rows: seq<Row>, acc: seq<Access>, a: Account) {
    && (forall k :: 0 <= k < |acc| ==> acc[k].row < |rows| && acc[k].row in a.seen && a.seen[acc[k].row] == acc[k].orig)
    && (forall k :: 0 <= k < |acc| && acc[k].write ==> acc[k].row in a.wrote && a.wrote[acc[k].row] == rows[acc[k].row].data)
    && (forall x :: x in a.seen ==> Touches(acc, x))
    && (forall x :: x in a.wrote ==> Overwrites(acc, x))
  }

  ghost predicate Accounted(rows: seq<Row>, th: Thread, a: Account) {
    th.Running? || th.Asking? ==> Lists(rows, th.acc, a)
  }

  ghost predicate DistinctRows(acc: seq<Access>) {
    forall j, k :: 0 <= j < k < |acc| ==> acc[j].row != acc[k].row
  }

  ghost predicate Told(s: State, s': State, t: nat, a: Account) {
    && t < |s.threads| == |s'.threads| && (forall u :: 0 <= u < |s.threads| && u != t ==> s'.threads[u] == s.threads[u])
    && Accounted(s'.rows, s'.threads[t], After(a, DeedOf(s, s', t)))
    && if DeedOf(s, s', t).Commits? then |s'.log| == |s.log| + 1 && s.log == s'.log[..|s.log|] && IsReport(s'.log[|s.log|], a)
       else s'.log == s.log
  }

  /** Only the data of rows that the account does not cover differ. */
  lemma SameData(rows: seq<Row>, rows': seq<Row>, acc: seq<Access>, a: Account)
    requires Lists(rows, acc, a) && |rows'| == |rows|
    requires forall k :: 0 <= k < |acc| && acc[k].write ==> rows'[acc[k].row].data == rows[acc[k].row].data
    ensures Lists(rows', acc, a)
  {
    hide Touches, Overwrites;
  }

  lemma NoData(rows: seq<Row>, rows': seq<Row>, acc: seq<Access>, a: Account)
    requires Lists(rows, acc, a) && |rows'| == |rows| && forall x :: 0 <= x < |rows| ==> rows'[x].data == rows[x].data
    ensures Lists(rows', acc, a)
  {
    SameData(rows, rows', acc, a);
  }

  lemma Kept(acc: seq<Access>, more: seq<Access>, y: nat)
    requires acc <= more
    ensures Touches(acc, y) ==> Touches(more, y)
    ensures Overwrites(acc, y) ==> Overwrites(more, y)
  {
    if k :| 0 <= k < |acc| && acc[k].row == y { assert more[k].row == y; }
    if k :| 0 <= k < |acc| && acc[k].row == y && acc[k].write { assert more[k].row == y && more[k].write; }
  }

  /** One more access. */
  lemma OneMore(rows: seq<Row>, acc: seq<Access>, a: Account, x: nat, w: bool)
    requires Lists(rows, acc, a) && x < |rows| && !Touches(acc, x)
    ensures Lists(rows, acc + [Access(x, w, rows[x].data)], After(a, Gets(x, rows[x].data, w)))
  {
    var more, b := acc + [Access(x, w, rows[x].data)], After(a, Gets(x, rows[x].data, w));
    forall y | y in b.seen ensures Touches(more, y) {
      if y == x { assert more[|acc|].row == x; } else { Kept(acc, more, y); }
    }
    forall y | y in b.wrote ensures Overwrites(more, y) {
      if y == x && w { assert more[|acc|].row == x && more[|acc|].write; } else { Kept(acc, more, y); }
    }
  }

  lemma OtherRows(acc: seq<Access>, j: nat, k: nat)
    requires DistinctRows(acc) && j < |acc| && k < |acc| && j != k
    ensures acc[j].row != acc[k].row
  {
  }

  lemma WritesThere(acc: seq<Access>, k: nat)
    requires k < |acc| && acc[k].write
    ensures Overwrites(acc, acc[k].row)
  {
  }

  lemma Changed(rows: seq<Row>, acc: seq<Access>, a: Account, k: nat, v: Val)
    requires Lists(rows, acc, a) && DistinctRows(acc) && k < |acc| && acc[k].write && acc[k].row < |rows|
    ensures Lists(rows[acc[k].row := Row(rows[acc[k].row].lock, v)], acc, After(a, Sets(acc[k].row, v)))
  {
    hide DistinctRows, Touches, Overwrites;
    WritesThere(acc, k);
    forall j | 0 <= j < |acc| && j != k ensures acc[j].row != acc[k].row { OtherRows(acc, j, k); }
  }

  lemma OrigIs(acc: seq<Access>, k: nat)
    requires DistinctRows(acc) && k < |acc|
    ensures Touches(acc, acc[k].row) && Orig(acc, acc[k].row) == acc[k].orig
  {
    hide Orig;
  }

  lemma DataIs(rows: seq<Row>, acc: seq<Access>, a: Account, x: nat)
    requires Lists(rows, acc, a) && Overwrites(acc, x)
    ensures x < |rows| && x in a.wrote && a.wrote[x] == rows[x].data
  {
    hide Touches;
  }

  lemma SeenIs(rows: seq<Row>, acc: seq<Access>, a: Account, x: nat)
    requires Lists(rows, acc, a) && DistinctRows(acc) && Touches(acc, x)
    ensures x < |rows| && x in a.seen && a.seen[x] == Orig(acc, x)
  {
    hide DistinctRows, Orig, Overwrites;
    var k :| 0 <= k < |acc| && acc[k].row == x;
    OrigIs(acc, k);
  }

  lemma NothingElse(rows: seq<Row>, acc: seq<Access>, a: Account)
    requires Lists(rows, acc, a)
    ensures forall x :: x in a.seen ==> Touches(acc, x)
    ensures forall x :: x in a.wrote ==> Overwrites(acc, x)
  {
  }

  /** What is committed is what the accesses and the rows say. */
  lemma CommitIsReport(rows: seq<Row>, acc: seq<Access>, a: Account, at: nat)
    requires Lists(rows, acc, a) && DistinctRows(acc)
    ensures IsReport(TxnOf(rows, acc, at), a)
  {
    hide DistinctRows, Orig, Lists, Touches, Overwrites;
    var u := TxnOf(rows, acc, at);
    NothingElse(rows, acc, a);
    forall x: nat | Touches(acc, x) ensures x < |rows| && x in a.seen && a.seen[x] == Orig(acc, x) { SeenIs(rows, acc, a, x); }
    forall x: nat | Overwrites(acc, x) ensures x < |rows| && x in a.wrote && a.wrote[x] == rows[x].data { DataIs(rows, acc, a, x); }
  }

  lemma WriteReports(s: State, s': State, t: nat, k: nat, v: Val, a: Account)
    requires Write(s, s', t, k, v) && Accounted(s.rows, s.threads[t], a) && DistinctRows(s.threads[t].acc)
    ensures Told(s, s', t, a)
  {
    hide Lists, DistinctRows;
    var j: nat, u: Val :| Write(s, s', t, j, u) && DeedOf(s, s', t) == Sets(s.threads[t].acc[j].row, u);
    assert Write(s, s', t, j, u);
    Changed(s.rows, s.threads[t].acc, a, j, u);
  }

  lemma ObtainReports(s: State, s': State, t: nat, a: Account)
    requires Obtain(s, s', t) && Accounted(s.rows, s.threads[t], a) && !Touches(s.threads[t].acc, s.threads[t].row)
    ensures Told(s, s', t, a)
  {
    hide Lists, Touches, Write;
    OneMore(s.rows, s.threads[t].acc, a, s.threads[t].row, s.threads[t].write);
  }

  lemma CommitReports(s: State, s': State, t: nat, a: Account)
    requires Commit(s, s', t) && Accounted(s.rows, s.threads[t], a) && DistinctRows(s.threads[t].acc)
    ensures Told(s, s', t, a)
  {
    hide Lists, DistinctRows, TxnOf, Write, Apply;
    CommitIsReport(s.rows, s.threads[t].acc, a, |s.log|);
  }

  lemma RequestReports(s: State, s': State, t: nat, x: nat, w: bool, a: Account)
    requires Request(s, s', t, x, w) && Accounted(s.rows, s.threads[t], a)
    ensures Told(s, s', t, a)
  {
    hide Lists, Touches, Write, LockTable.Get;
    if s'.threads[t].Asking? { NoData(s.rows, s'.rows, s.threads[t].acc, a); }
  }

  lemma StepActs(s: State, s': State, t: nat)
    requires Step(s, s', t)
    ensures t < |s.threads|
  {
  }

  lemma NothingListed(rows: seq<Row>)
    ensures Lists(rows, [], BLANK)
  {
  }

  /** Every step keeps the accesses, the accounts and the log in agreement. */
  lemma StepReports(s: State, s': State, t: nat, a: Account)
    requires t < |s.threads| && Step(s, s', t) && Accounted(s.rows, s.threads[t], a)
    requires !s.threads[t].Idle? ==> DistinctRows(s.threads[t].acc)
    requires s.threads[t].Asking? ==> !Touches(s.threads[t].acc, s.threads[t].row)
    ensures Told(s, s', t, a)
  {
    hide Lists, TxnOf, Touches, DistinctRows, Apply, Request, LockTable.Get, LockTable.Release;
    if k, v :| Write(s, s', t, k, v) { WriteReports(s, s', t, k, v, a); }
    else if x, w :| Request(s, s', t, x, w) { RequestReports(s, s', t, x, w, a); }
    else if Obtain(s, s', t) { ObtainReports(s, s', t, a); }
    else if Commit(s, s', t) { CommitReports(s, s', t, a); }
    else { NothingListed(s'.rows); }
  }
}
