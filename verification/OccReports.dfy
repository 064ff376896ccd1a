/** A committed transaction under optimistic concurrency control reports everything its body was
    given and everything its body has set. */
module OccReports {
  import opened Serial
  import opened Ledger
  import opened Occ

  /** What a step means for the transaction body. */
  ghost function DeedOf(s: State, s': State, t: nat): Deed {
    if t >= |s.threads| || t >= |s'.threads| then Other
    else
      var b, a := s.threads[t], s'.threads[t];
      if b.Idle? && a.Running? then Starts
      else if b.Running? && a.Running? then
        if exists x, w :: Read(s, s', t, x, w)
        then var x: nat, w: bool :| Read(s, s', t, x, w); Gets(x, s.rows[x].data, w)
        else if exists k, v :: LocalWrite(s, s', t, k, v)
        then var k: nat, v: Val :| LocalWrite(s, s', t, k, v); Sets(b.acc[k].row, v)
        else Other
      else if b.Latching? && a.Writing? then Commits
      else Other
  }

  ghost function DeedsOf(run: seq<State>, who: seq<nat>): (d: Deeds)
    requires |run| == |who| + 1
    ensures |d| == |who|
  {
    seq(|who|, i requires 0 <= i < |who| => (who[i], DeedOf(run[i], run[i + 1], who[i])))
  }

  lemma DeedsGrow(run: seq<State>, who: seq<nat>)
    requires |run| == |who| + 1 > 1
    ensures var n := |who| - 1;
            DeedsOf(run, who) == DeedsOf(run[..n + 1], who[..n]) + [(who[n], DeedOf(run[n], run[n + 1], who[n]))]
  {
  }

  /** The accesses say exactly what the account says. */
  ghost predicate Lists(acc: seq<Access>, a: Account) {
    && (forall k :: 0 <= k < |acc| ==> acc[k].row in a.seen && a.seen[acc[k].row] == acc[k].orig)
    && (forall k :: 0 <= k < |acc| && acc[k].write ==> acc[k].row in a.wrote && a.wrote[acc[k].row] == acc[k].data)
    && (forall x :: x in a.seen ==> Touches(acc, x))
    && (forall x :: x in a.wrote ==> Overwrites(acc, x))
  }

  ghost predicate Accounted(th: Thread, a: Account) {
    th.Running? || th.Latching? ==> Lists(th.acc, a)
  }

  ghost predicate DistinctRows(acc: seq<Access>, n: nat) {
    && (forall j, k :: 0 <= j < k < |acc| ==> acc[j].row != acc[k].row)
    && (forall k :: 0 <= k < |acc| ==> acc[k].row < n)
  }

  ghost predicate Told(s: State, s': State, t: nat, a: Account) {
    && t < |s.threads| == |s'.threads| && (forall u :: 0 <= u < |s.threads| && u != t ==> s'.threads[u] == s.threads[u])
    && Accounted(s'.threads[t], After(a, DeedOf(s, s', t)))
    && if DeedOf(s, s', t).Commits? then |s'.log| == |s.log| + 1 && s.log == s'.log[..|s.log|] && IsReport(s'.log[|s.log|], a)
       else s'.log == s.log
  }

  /** One more access. */
  lemma OneMore(acc: seq<Access>, a: Account, x: nat, v: Val, w: bool)
    requires Lists(acc, a) && !Touches(acc, x)
    ensures Lists(acc + [Access(x, w, v, v)], After(a, Gets(x, v, w)))
  {
    var more, b := acc + [Access(x, w, v, v)], After(a, Gets(x, v, w));
    forall y | y in b.seen ensures Touches(more, y) {
      if y == x { assert more[|acc|].row == x; } else { Kept(acc, more, y); }
    }
    forall y | y in b.wrote ensures Overwrites(more, y) {
      if y == x && w { assert more[|acc|].row == x && more[|acc|].write; } else { Kept(acc, more, y); }
    }
  }

  lemma Kept(acc: seq<Access>, more: seq<Access>, y: nat)
    requires |acc| <= |more| && forall k :: 0 <= k < |acc| ==> more[k].row == acc[k].row && more[k].write == acc[k].write
    ensures Touches(acc, y) ==> Touches(more, y)
    ensures Overwrites(acc, y) ==> Overwrites(more, y)
  {
    if k :| 0 <= k < |acc| && acc[k].row == y { assert more[k].row == y; }
    if k :| 0 <= k < |acc| && acc[k].row == y && acc[k].write { assert more[k].row == y && more[k].write; }
  }

  lemma OtherRows(acc: seq<Access>, n: nat, j: nat, k: nat)
    requires DistinctRows(acc, n) && j < |acc| && k < |acc| && j != k
    ensures acc[j].row != acc[k].row
  {
  }

  lemma Changed(acc: seq<Access>, a: Account, k: nat, v: Val, n: nat)
    requires Lists(acc, a) && DistinctRows(acc, n) && k < |acc| && acc[k].write
    ensures Lists(acc[k := Access(acc[k].row, true, acc[k].orig, v)], After(a, Sets(acc[k].row, v)))
  {
    hide DistinctRows, Touches, Overwrites;
    var changed, b := acc[k := Access(acc[k].row, true, acc[k].orig, v)], After(a, Sets(acc[k].row, v));
    forall y | y in b.seen ensures Touches(changed, y) { Kept(acc, changed, y); }
    forall y | y in b.wrote ensures Overwrites(changed, y) {
      Kept(acc, changed, y);
      if y == acc[k].row { WritesThere(acc, k); }
    }
    forall j | 0 <= j < |acc| && j != k ensures acc[j].row != acc[k].row { OtherRows(acc, n, j, k); }
  }

  lemma WritesThere(acc: seq<Access>, k: nat)
    requires k < |acc| && acc[k].write
    ensures Overwrites(acc, acc[k].row)
  {
  }

  /** The order of the accesses does not matter. */
  lemma Reordered(acc: seq<Access>, sorted: seq<Access>, a: Account)
    requires Lists(acc, a) && multiset(sorted) == multiset(acc)
    ensures Lists(sorted, a)
  {
    forall k | 0 <= k < |sorted| ensures exists j :: 0 <= j < |acc| && acc[j] == sorted[k] { assert sorted[k] in multiset(acc); }
    forall y | y in a.seen ensures Touches(sorted, y) {
      var j :| 0 <= j < |acc| && acc[j].row == y;
      assert acc[j] in multiset(sorted);
      var k :| 0 <= k < |sorted| && sorted[k] == acc[j];
    }
    forall y | y in a.wrote ensures Overwrites(sorted, y) {
      var j :| 0 <= j < |acc| && acc[j].row == y && acc[j].write;
      assert acc[j] in multiset(sorted);
      var k :| 0 <= k < |sorted| && sorted[k] == acc[j];
    }
  }

  lemma SlotIs(acc: seq<Access>, k: nat, n: nat)
    requires DistinctRows(acc, n) && k < |acc|
    ensures Touches(acc, acc[k].row) && SlotOf(acc, acc[k].row) == k
  {
    hide SlotOf;
  }

  /** What is committed is what the accesses say. */
  lemma CommitIsReport(acc: seq<Access>, a: Account, n: nat, end: nat)
    requires Lists(acc, a) && DistinctRows(acc, n)
    ensures IsReport(TxnOf(n, end, acc), a)
  {
    hide DistinctRows, SlotOf;
    var u := TxnOf(n, end, acc);
    forall x ensures x in u.seen <==> x in a.seen {
      if x in a.seen { InRange(acc, x, n); }
    }
    forall x ensures x in u.written <==> x in a.wrote {
      if k :| 0 <= k < |acc| && acc[k].row == x && acc[k].write {
        InRange(acc, x, n);
        SlotIs(acc, k, n);
      }
    }
    forall x | x in u.seen ensures u.seen[x] == a.seen[x] { var k := SlotOf(acc, x); }
    forall x | x in u.written ensures u.written[x] == a.wrote[x] { var k := SlotOf(acc, x); }
  }

  lemma InRange(acc: seq<Access>, x: nat, n: nat)
    requires DistinctRows(acc, n) && Touches(acc, x)
    ensures x < n
  {
  }

  lemma ReadReports(s: State, s': State, t: nat, x: nat, w: bool, a: Account)
    requires Read(s, s', t, x, w) && Accounted(s.threads[t], a)
    ensures Told(s, s', t, a)
  {
    hide Lists, Touches;
    if s'.threads[t].Running? {
      var y: nat, z: bool :| Read(s, s', t, y, z) && DeedOf(s, s', t) == Gets(y, s.rows[y].data, z);
      assert Read(s, s', t, y, z);
      OneMore(s.threads[t].acc, a, y, s.rows[y].data, z);
    }
  }

  lemma ReadGrows(s: State, s': State, t: nat, x: nat, w: bool)
    requires Read(s, s', t, x, w)
    ensures s.threads[t].Running? && (s'.threads[t].Running? ==> |s'.threads[t].acc| == |s.threads[t].acc| + 1)
  {
  }

  /** A write of the body takes no copy. */
  lemma WriteIsNoRead(s: State, s': State, t: nat, k: nat, v: Val)
    requires LocalWrite(s, s', t, k, v)
    ensures forall x, w :: !Read(s, s', t, x, w)
  {
    hide Read;
    forall x: nat, w ensures !Read(s, s', t, x, w) {
      if Read(s, s', t, x, w) { ReadGrows(s, s', t, x, w); }
    }
  }

  lemma LocalReports(s: State, s': State, t: nat, k: nat, v: Val, a: Account)
    requires LocalWrite(s, s', t, k, v) && Accounted(s.threads[t], a) && DistinctRows(s.threads[t].acc, |s.rows|)
    ensures Told(s, s', t, a)
  {
    hide Lists, DistinctRows, Read;
    WriteIsNoRead(s, s', t, k, v);
    var j: nat, u: Val :| LocalWrite(s, s', t, j, u) && DeedOf(s, s', t) == Sets(s.threads[t].acc[j].row, u);
    assert LocalWrite(s, s', t, j, u);
    Changed(s.threads[t].acc, a, j, u, |s.rows|);
  }

  lemma StepActs(s: State, s': State, t: nat)
    requires Step(s, s', t)
    ensures t < |s.threads|
  {
  }

  /** Every step keeps the accesses, the accounts and the log in agreement. */
  lemma StepReports(s: State, s': State, t: nat, a: Account)
    requires t < |s.threads| && Step(s, s', t) && Accounted(s.threads[t], a)
    requires s.threads[t].Running? || s.threads[t].Latching? ==> DistinctRows(s.threads[t].acc, |s.rows|)
    ensures Told(s, s', t, a)
  {
    hide Lists, TxnOf, Touches, DistinctRows, Apply, Read;
    if x, w :| Read(s, s', t, x, w) { ReadReports(s, s', t, x, w, a); }
    else if k, v :| LocalWrite(s, s', t, k, v) { LocalReports(s, s', t, k, v, a); }
    else if acc :| Validate(s, s', t, acc) { Reordered(s.threads[t].acc, acc, a); }
    else if Commit(s, s', t) { CommitIsReport(s.threads[t].acc, a, |s.rows|, s.clock + 1); }
    else if Begin(s, s', t) { assert Lists([], BLANK) by { NothingListed(); } }
  }

  lemma NothingListed()
    ensures Lists([], BLANK)
  {
  }
}
