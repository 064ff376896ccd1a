/** What the bodies of multi-version transactions have looked at, read off the steps of a run, and
    that the lists the transactions keep of it are complete. */
module MvccDbLooks {
  import opened Serial
  import opened MvccDb
  import M = Mvcc

  /** A row and what a look at it has shown. */
  type Looks = seq<(nat, Val)>

  /** All looks of the transaction that thread `t` is running. */
  ghost function LooksOf(run: seq<State>, who: seq<nat>, t: nat): Looks
    requires |run| == |who| + 1
  {
    var n := |who|;
    if n == 0 || t >= |run[n].threads| || run[n].threads[t].Idle? then []
    else LooksOf(run[..n], who[..n - 1], t) + NewLook(run[n - 1], run[n], who[n - 1], t)
  }

  ghost function NewLook(s: State, s': State, t: nat, u: nat): Looks {
    if u == t && exists k :: Look(s, s', t, k)
    then var k: nat :| Look(s, s', t, k); [(s.threads[t].acc[k].row, Contents(s.rows[s.threads[t].acc[k].row], s.threads[t].acc[k].buf))]
    else []
  }

  /** A thread goes from running to the end with success. */
  ghost predicate Commits(s: State, s': State, t: nat) {
    t < |s.threads| && t < |s'.threads| && s.threads[t].Running? && s'.threads[t].Ending? && s'.threads[t].commit
  }

  /** The looks of the committed transactions, in the order of their commits. */
  ghost function Albums(run: seq<State>, who: seq<nat>): seq<Looks>
    requires |run| == |who| + 1
  {
    var n := |who|;
    if n == 0 then []
    else Albums(run[..n], who[..n - 1]) + if Commits(run[n - 1], run[n], who[n - 1]) then [LooksOf(run[..n], who[..n - 1], who[n - 1])] else []
  }

  /** The accesses list exactly these looks. */
  ghost predicate Lists(acc: seq<Access>, looks: Looks) {
    && (forall k, j :: 0 <= k < |acc| && 0 <= j < |acc[k].looks| ==> (acc[k].row, acc[k].looks[j]) in looks)
    && (forall p :: p in looks ==> Listed(acc, p.0, p.1))
  }

  ghost predicate Listed(acc: seq<Access>, x: nat, v: Val) {
    exists k, j :: 0 <= k < |acc| && 0 <= j < |acc[k].looks| && acc[k].row == x && acc[k].looks[j] == v
  }

  ghost predicate Matches(th: Thread, looks: Looks) {
    th.Running? || th.Waiting? ==> Lists(th.acc, looks)
  }

  /** An access without looks. */
  lemma OneMore(acc: seq<Access>, a: Access, looks: Looks)
    requires Lists(acc, looks) && a.looks == []
    ensures Lists(acc + [a], looks)
  {
    var more := acc + [a];
    forall p | p in looks ensures Listed(more, p.0, p.1) {
      var k, j :| 0 <= k < |acc| && 0 <= j < |acc[k].looks| && acc[k].row == p.0 && acc[k].looks[j] == p.1;
      assert more[k] == acc[k];
    }
  }

  lemma SameLooks(acc: seq<Access>, k: nat, a: Access, looks: Looks)
    requires Lists(acc, looks) && k < |acc| && a.row == acc[k].row && a.looks == acc[k].looks
    ensures Lists(acc[k := a], looks)
  {
    var changed := acc[k := a];
    forall p | p in looks ensures Listed(changed, p.0, p.1) {
      var m, j :| 0 <= m < |acc| && 0 <= j < |acc[m].looks| && acc[m].row == p.0 && acc[m].looks[j] == p.1;
      assert changed[m].looks == acc[m].looks;
    }
  }

  lemma OneLook(acc: seq<Access>, k: nat, v: Val, looks: Looks)
    requires Lists(acc, looks) && k < |acc|
    ensures Lists(acc[k := acc[k].(looks := acc[k].looks + [v])], looks + [(acc[k].row, v)])
  {
    var changed, more := acc[k := acc[k].(looks := acc[k].looks + [v])], looks + [(acc[k].row, v)];
    forall m, j | 0 <= m < |changed| && 0 <= j < |changed[m].looks| ensures (changed[m].row, changed[m].looks[j]) in more {
      if m == k && j == |acc[k].looks| {
        assert more[|looks|] == (changed[m].row, changed[m].looks[j]);
      } else {
        assert (acc[m].row, acc[m].looks[j]) in looks;
      }
    }
    forall p | p in more ensures Listed(changed, p.0, p.1) {
      if p in looks {
        var m, j :| 0 <= m < |acc| && 0 <= j < |acc[m].looks| && acc[m].row == p.0 && acc[m].looks[j] == p.1;
        assert changed[m].looks[j] == acc[m].looks[j];
      } else {
        assert changed[k].looks[|acc[k].looks|] == v;
      }
    }
  }

  lemma NoLooks()
    ensures Lists([], [])
  {
  }

  lemma StepActs(s: State, s': State, t: nat)
    requires Step(s, s', t)
    ensures t < |s.threads| == |s'.threads|
  {
    hide M.Read, M.Prewrite, M.Update, M.Install, M.Drop, M.Fill, Insert, TxnOf, Resumes;
  }

  /** What happens to a thread when another one acts: nothing, or its wait ends with an access. */
  lemma OthersWait(s: State, s': State, t: nat, u: nat)
    requires Step(s, s', t) && u < |s.threads| && u < |s'.threads| && u != t
    ensures s'.threads[u] == s.threads[u]
         || (s.threads[u].Waiting? && s'.threads[u].Running? && |s'.threads[u].acc| == |s.threads[u].acc| + 1
             && s'.threads[u].acc[..|s.threads[u].acc|] == s.threads[u].acc && s'.threads[u].acc[|s.threads[u].acc|].looks == [])
  {
    hide M.Read, M.Prewrite, M.Update, M.Install, M.Drop, M.Fill, M.HasBuffer, Insert, TxnOf;
  }

  lemma OthersMatch(s: State, s': State, t: nat, u: nat, looks: Looks)
    requires Step(s, s', t) && u < |s.threads| && u < |s'.threads| && u != t && Matches(s.threads[u], looks)
    ensures Matches(s'.threads[u], looks) && (s'.threads[u].Idle? <==> s.threads[u].Idle?)
  {
    hide Step, Lists;
    OthersWait(s, s', t, u);
    if s'.threads[u] != s.threads[u] {
      var acc := s.threads[u].acc;
      OneMore(acc, s'.threads[u].acc[|acc|], looks);
      assert s'.threads[u].acc == acc + [s'.threads[u].acc[|acc|]];
    }
  }

  lemma LookMatches(s: State, s': State, t: nat, k: nat, looks: Looks)
    requires Look(s, s', t, k) && Matches(s.threads[t], looks)
    ensures Matches(s'.threads[t], looks + NewLook(s, s', t, t))
  {
    hide Lists;
    var m: nat :| Look(s, s', t, m)
      && NewLook(s, s', t, t) == [(s.threads[t].acc[m].row, Contents(s.rows[s.threads[t].acc[m].row], s.threads[t].acc[m].buf))];
    assert Look(s, s', t, m);
    var a := s.threads[t].acc[m];
    OneLook(s.threads[t].acc, m, Contents(s.rows[a.row], a.buf), looks);
  }

  /** No other step is a look. */
  lemma OnlyLooks(s: State, s': State, t: nat, k: nat)
    requires Look(s, s', t, k)
    ensures t < |s.threads| == |s'.threads| && k < |s.threads[t].acc|
    ensures s.threads[t].Running? && s'.threads[t].Running? && |s'.threads[t].acc| == |s.threads[t].acc| && s'.rows == s.rows
    ensures s'.threads[t].acc[k].clean && s'.threads[t].acc[k].looks != s.threads[t].acc[k].looks
    ensures s'.threads[t].acc == s.threads[t].acc[k := s'.threads[t].acc[k]]
  {
  }

  lemma GrantMatches(s: State, s': State, t: nat, looks: Looks)
    requires t < |s.threads| && s.threads[t].Running? && Matches(s.threads[t], looks)
    requires (exists x :: Read(s, s', t, x)) || (exists x, minTs :: Prewrite(s, s', t, x, minTs))
    ensures t < |s'.threads| && Matches(s'.threads[t], looks) && (forall k :: !Look(s, s', t, k)) && !Commits(s, s', t)
    ensures s'.log == s.log && s'.looked == s.looked && !s'.threads[t].Idle?
  {
    hide Lists, Look, M.Read, M.Prewrite;
    forall k: nat ensures !Look(s, s', t, k) {
      if Look(s, s', t, k) { OnlyLooks(s, s', t, k); }
    }
    var acc := s.threads[t].acc;
    if s'.threads[t].Running? {
      OneMore(acc, s'.threads[t].acc[|acc|], looks);
      assert s'.threads[t].acc == acc + [s'.threads[t].acc[|acc|]];
    }
  }

  lemma FillMatches(s: State, s': State, t: nat, k: nat, v: Val, looks: Looks)
    requires Fill(s, s', t, k, v) && Matches(s.threads[t], looks)
    ensures t < |s'.threads| && Matches(s'.threads[t], looks) && (forall m :: !Look(s, s', t, m)) && !Commits(s, s', t)
    ensures s'.log == s.log && s'.looked == s.looked && !s'.threads[t].Idle?
  {
    hide Lists, Look, M.Fill, M.HasBuffer;
    assert forall m :: 0 <= m < |s.threads[t].acc| ==> s'.threads[t].acc[m].looks == s.threads[t].acc[m].looks;
    forall m: nat ensures !Look(s, s', t, m) {
      if Look(s, s', t, m) { OnlyLooks(s, s', t, m); }
    }
    SameLooks(s.threads[t].acc, k, s'.threads[t].acc[k], looks);
  }

  lemma EndMatches(s: State, s': State, t: nat, looks: Looks)
    requires t < |s.threads| && Matches(s.threads[t], looks)
    requires (exists ts :: Begin(s, s', t, ts)) || Rollback(s, s', t) || ReturnRead(s, s', t) || (exists minTs :: ReturnWrite(s, s', t, minTs)) || Finish(s, s', t)
    requires s.threads[t].Idle? ==> looks == []
    ensures t < |s'.threads| && Matches(s'.threads[t], looks) && (forall k :: !Look(s, s', t, k)) && !Commits(s, s', t)
    ensures s'.log == s.log && s'.looked == s.looked
  {
    hide Lists, Look, M.Update, M.Install, M.Drop, M.HasBuffer, Resumes;
    forall k: nat ensures !Look(s, s', t, k) {
      if Look(s, s', t, k) { OnlyLooks(s, s', t, k); }
    }
    NoLooks();
  }

  /** What a step of thread `t` does to its own looks, and to the record of the commits. */
  lemma StepMatches(s: State, s': State, t: nat, looks: Looks)
    requires t < |s.threads| && Step(s, s', t) && Matches(s.threads[t], looks) && (s.threads[t].Idle? ==> looks == [])
    ensures t < |s'.threads| && (!s'.threads[t].Idle? ==> Matches(s'.threads[t], looks + NewLook(s, s', t, t)))
    ensures Commits(s, s', t) ==> Commit(s, s', t)
    ensures !Commits(s, s', t) ==> s'.log == s.log && s'.looked == s.looked
  {
    hide Matches, Begin, Read, Prewrite, Look, Fill, Rollback, ReturnRead, ReturnWrite, Finish, Insert, TxnOf;
    assert looks + [] == looks;
    if k: nat :| Look(s, s', t, k) {
      LookMatches(s, s', t, k, looks);
      LooksOnly(s, s', t, k);
    } else if k: nat, v :| Fill(s, s', t, k, v) {
      FillMatches(s, s', t, k, v, looks);
    } else if Commit(s, s', t) {
      EndingMatches(s'.threads[t], looks);
    } else if (exists x :: Read(s, s', t, x)) || (exists x, minTs :: Prewrite(s, s', t, x, minTs)) {
      Asks(s, s', t);
      GrantMatches(s, s', t, looks);
    } else {
      EndMatches(s, s', t, looks);
    }
  }

  lemma LooksOnly(s: State, s': State, t: nat, k: nat)
    requires Look(s, s', t, k)
    ensures s'.log == s.log && s'.looked == s.looked && !Commits(s, s', t) && t < |s'.threads|
  {
  }

  lemma Asks(s: State, s': State, t: nat)
    requires (exists x :: Read(s, s', t, x)) || (exists x, minTs :: Prewrite(s, s', t, x, minTs))
    ensures t < |s.threads| && s.threads[t].Running?
  {
    hide M.Read, M.Prewrite;
  }

  lemma EndingMatches(th: Thread, looks: Looks)
    ensures th.Ending? ==> Matches(th, looks)
  {
  }

  // ---------------------------------------------------------------- whole runs

  lemma LooksNext(run: seq<State>, who: seq<nat>, t: nat)
    requires |run| == |who| + 1 > 1
    ensures var n := |who|;
            LooksOf(run, who, t) ==
            if t >= |run[n].threads| || run[n].threads[t].Idle? then []
            else LooksOf(run[..n], who[..n - 1], t) + NewLook(run[n - 1], run[n], who[n - 1], t)
  {
  }

  lemma NoneYet(run: seq<State>, who: seq<nat>)
    requires |run| == |who| + 1 == 1
    ensures Albums(run, who) == [] && forall t :: LooksOf(run, who, t) == []
  {
  }

  ghost predicate AllMatch(run: seq<State>, who: seq<nat>)
    requires |run| == |who| + 1
  {
    var s := run[|run| - 1];
    forall t :: 0 <= t < |s.threads| ==> Matches(s.threads[t], LooksOf(run, who, t)) && (s.threads[t].Idle? ==> LooksOf(run, who, t) == [])
  }

  ghost predicate Complete(looked: seq<seq<Access>>, albums: seq<Looks>) {
    |looked| == |albums| && forall i :: 0 <= i < |looked| ==> Lists(looked[i], albums[i])
  }

  lemma StartsMatch(run: seq<State>, who: seq<nat>, db: Db, cores: nat)
    requires Run(run, who, db, cores) && |run| == 1
    ensures AllMatch(run, who) && Complete(run[0].looked, Albums(run, who)) && |run[0].log| == |run[0].looked|
  {
  }

  /** One more step. */
  lemma NextMatch(run: seq<State>, who: seq<nat>, db: Db, cores: nat)
    requires Run(run, who, db, cores) && |run| > 1
    requires var n := |who|; AllMatch(run[..n], who[..n - 1])
    ensures AllMatch(run, who)
  {
    hide Step, Matches, LooksOf, NewLook;
    var n := |who|;
    var s, s', t := run[n - 1], run[n], who[n - 1];
    assert Step(s, s', t);
    StepActs(s, s', t);
    forall u: nat | u < |s'.threads|
      ensures Matches(s'.threads[u], LooksOf(run, who, u)) && (s'.threads[u].Idle? ==> LooksOf(run, who, u) == [])
    {
      var looks := LooksOf(run[..n], who[..n - 1], u);
      assert Matches(s.threads[u], looks);
      LooksNext(run, who, u);
      if u == t {
        StepMatches(s, s', t, looks);
        if s'.threads[u].Idle? { IdleMatches(s'.threads[u]); }
      } else {
        OthersMatch(s, s', t, u, looks);
        NotMine(s, s', t, u);
        assert looks + [] == looks;
      }
    }
  }

  lemma IdleMatches(th: Thread)
    requires th.Idle?
    ensures Matches(th, [])
  {
  }

  lemma NotMine(s: State, s': State, t: nat, u: nat)
    requires t != u
    ensures NewLook(s, s', t, u) == []
  {
  }

  lemma NextComplete(run: seq<State>, who: seq<nat>, db: Db, cores: nat)
    requires Run(run, who, db, cores) && |run| > 1
    requires var n := |who|;
      AllMatch(run[..n], who[..n - 1]) && Complete(run[n - 1].looked, Albums(run[..n], who[..n - 1])) && |run[n - 1].log| == |run[n - 1].looked|
    ensures Complete(run[|who|].looked, Albums(run, who)) && |run[|who|].log| == |run[|who|].looked|
  {
    hide Step, LooksOf, NewLook, Lists, Insert, TxnOf;
    var n := |who|;
    var s, s', t := run[n - 1], run[n], who[n - 1];
    assert Step(s, s', t);
    StepActs(s, s', t);
    StepMatches(s, s', t, LooksOf(run[..n], who[..n - 1], t));
    if Commits(s, s', t) { assert Lists(s.threads[t].acc, LooksOf(run[..n], who[..n - 1], t)); }
  }

  /** Over every run, the accesses of every thread list exactly the looks its body has taken, and so
      does the record of the committed transactions. */
  lemma {:induction false} RunLooks(run: seq<State>, who: seq<nat>, db: Db, cores: nat)
    requires Run(run, who, db, cores)
    ensures AllMatch(run, who) && Complete(run[|run| - 1].looked, Albums(run, who)) && |run[|run| - 1].log| == |run[|run| - 1].looked|
  {
    hide Step, AllMatch, Complete, Albums, Init;
    if |run| == 1 {
      StartsMatch(run, who, db, cores);
    } else {
      var n := |who|;
      RunLooks(run[..n], who[..n - 1], db, cores);
      NextMatch(run, who, db, cores);
      NextComplete(run, who, db, cores);
    }
  }

  /** The log has an entry for every commit, and it has seen exactly what every look of its body has
      shown. */
  ghost predicate ReportsLooks(log: seq<Txn>, albums: seq<Looks>) {
    && |log| == |albums|
    && forall i :: 0 <= i < |log| ==>
         && (forall p :: p in albums[i] ==> p.0 in log[i].seen && log[i].seen[p.0] == p.1)
         && (forall x :: x in log[i].seen ==> (x, log[i].seen[x]) in albums[i])
  }
}
