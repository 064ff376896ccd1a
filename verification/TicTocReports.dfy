/** A committed TicToc transaction reports everything its body was given and everything its body
    has set: no access is lost between the access list, the two sets and the commit. */
module TicTocReports {
  import opened Serial
  import opened AccessList
  import opened Ledger
  import opened TicToc

  /** What a step means for the transaction body: a copy is handed out when the comparison at its
      end accepts it, a write changes a private copy, a thread that is back at an empty access
      list begins anew, and a commit is the way from validation to installation. */
  ghost function DeedOf(s: State, s': State, t: nat): Deed {
    if t >= |s.threads| || t >= |s'.threads| then Other
    else
      var b, a := s.threads[t], s'.threads[t];
      if b.Copying? && a.Running? then
        if b.row < |s.rows| && s.rows[b.row].word.wts == b.seenWord.wts && s.rows[b.row].word.locked == b.seenWord.locked
        then Gets(b.row, b.buf, b.write) else Other
      else if b.Running? && a.Running? && a.acc != [] then
        if exists k, v :: LocalWrite(s, s', t, k, v)
        then var k: nat, v: Val :| LocalWrite(s, s', t, k, v); Sets(b.acc[k].row, v)
        else Other
      else if a.Running? then Starts
      else if b.Renewing? && a.Storing? then Commits
      else Other
  }

  ghost function DeedsOf(run: seq<State>, who: seq<nat>): (d: Deeds)
    requires |run| == |who| + 1
    ensures |d| == |who|
  {
    seq(|who|, i requires 0 <= i < |who| => (who[i], DeedOf(run[i], run[i + 1], who[i])))
  }

  lemma DeedsGrow(run: seq<State>, who: seq<nat>)
    requires |run| == |who| + 1 > 1
    ensures var n := |who| - 1;
            DeedsOf(run, who) == DeedsOf(run[..n + 1], who[..n]) + [(who[n], DeedOf(run[n], run[n + 1], who[n]))]
  {
  }

  /** The lists of the thread agree with the account of its body. */
  ghost predicate Accounted(th: Thread, a: Account) {
    match th
    case Running(acc) => a.seen == Reads(acc) && a.wrote == Writes(Filter(acc, true))
    case Copying(acc, _, _, _, _) => a.seen == Reads(acc) && a.wrote == Writes(Filter(acc, true))
    case Storing(_, _) => true
    case Installing(_, _, _) => true
    case _ => a.seen == TxnOf(th.job).seen && a.wrote == TxnOf(th.job).written
  }

  /** Ending a copy. */
  lemma EndReads(s: State, s': State, t: nat, a: Account)
    requires EndRead(s, s', t) && Accounted(s.threads[t], a)
    ensures Told(s, s', t, a)
  {
    hide Reads, Writes, Filter;
    var th := s.threads[t];
    var one := Access(th.write, th.row, Lease(th.seenWord.wts, th.seenWord.Rts()), th.buf, th.buf);
    OneMore(th.acc, one);
  }

  lemma LocallyWrites(s: State, s': State, t: nat, k: nat, v: Val, a: Account)
    requires LocalWrite(s, s', t, k, v) && Accounted(s.threads[t], a) && Distinct(s.threads[t].acc)
    ensures Told(s, s', t, a)
  {
    hide Reads, Writes, Filter;
    var acc := s.threads[t].acc;
    var d := DeedOf(s, s', t);
    assert s'.threads[t].acc[k] == acc[k].(data := v);
    var j: nat, w: Val :| LocalWrite(s, s', t, j, w) && d == Sets(acc[j].row, w);
    ChangedData(acc, j, w);
  }

  lemma Validates(s: State, s': State, t: nat, a: Account)
    requires Validate(s, s', t) && Accounted(s.threads[t], a) && Distinct(s.threads[t].acc)
    ensures Told(s, s', t, a)
  {
    hide Reads, Writes, Filter;
    SetsReport(s.threads[t].acc);
  }

  /** The thread's lists agree with the account after the step, and the log has grown exactly if it
      was a commit, by what the account says. */
  ghost predicate Told(s: State, s': State, t: nat, a: Account) {
    && t < |s.threads| == |s'.threads| && (forall u :: 0 <= u < |s.threads| && u != t ==> s'.threads[u] == s.threads[u])
    && Accounted(s'.threads[t], After(a, DeedOf(s, s', t)))
    && if DeedOf(s, s', t).Commits? then |s'.log| == |s.log| + 1 && s.log == s'.log[..|s.log|] && IsReport(s'.log[|s.log|], a)
       else s'.log == s.log
  }

  lemma BodyReports(s: State, s': State, t: nat, a: Account)
    requires t < |s.threads| && Accounted(s.threads[t], a)
    requires (exists x, w :: BeginRead(s, s', t, x, w)) || CopyCell(s, s', t) || Rollback(s, s', t)
    ensures Told(s, s', t, a)
  {
  }

  lemma LockReports(s: State, s': State, t: nat, a: Account)
    requires t < |s.threads| && Accounted(s.threads[t], a)
    requires PreAbort(s, s', t) || Lock(s, s', t) || LockFails(s, s', t) || ReleaseOne(s, s', t) || ReleaseDone(s, s', t) || AllLocked(s, s', t)
    ensures Told(s, s', t, a)
  {
  }

  lemma LeaseReports(s: State, s': State, t: nat, a: Account)
    requires t < |s.threads| && Accounted(s.threads[t], a)
    requires Raise(s, s', t) || RaiseDone(s, s', t) || Renew(s, s', t) || SwapWord(s, s', t) || SwapFails(s, s', t)
    ensures Told(s, s', t, a)
  {
    hide Reads, Writes;
  }

  lemma InstallReports(s: State, s': State, t: nat, a: Account)
    requires t < |s.threads| && Accounted(s.threads[t], a)
    requires Commit(s, s', t) || StoreWord(s, s', t) || InstallCell(s, s', t) || InstallDone(s, s', t) || Finish(s, s', t)
    ensures Told(s, s', t, a)
  {
    hide Insert;
  }

  lemma StepActs(s: State, s': State, t: nat)
    requires Step(s, s', t)
    ensures t < |s.threads|
  {
  }

  /** Every step keeps the lists, the accounts and the log in agreement. */
  lemma StepReports(s: State, s': State, t: nat, a: Account)
    requires t < |s.threads| && Step(s, s', t) && Accounted(s.threads[t], a)
    requires s.threads[t].Running? ==> Distinct(s.threads[t].acc)
    ensures Told(s, s', t, a)
  {
    hide Accounted, BeginRead, CopyCell, Rollback, PreAbort, Lock, LockFails, ReleaseOne, ReleaseDone, AllLocked;
    hide Raise, RaiseDone, Renew, SwapWord, SwapFails, Commit, StoreWord, InstallCell, InstallDone, Finish, DeedOf;
    if EndRead(s, s', t) { EndReads(s, s', t, a); }
    else if k, v :| LocalWrite(s, s', t, k, v) { LocallyWrites(s, s', t, k, v, a); }
    else if Validate(s, s', t) { Validates(s, s', t, a); }
    else if (exists x, w :: BeginRead(s, s', t, x, w)) || CopyCell(s, s', t) || Rollback(s, s', t) { BodyReports(s, s', t, a); }
    else if Raise(s, s', t) || RaiseDone(s, s', t) || Renew(s, s', t) || SwapWord(s, s', t) || SwapFails(s, s', t) {
      LeaseReports(s, s', t, a);
    } else if Commit(s, s', t) || StoreWord(s, s', t) || InstallCell(s, s', t) || InstallDone(s, s', t) || Finish(s, s', t) {
      InstallReports(s, s', t, a);
    } else {
      LockReports(s, s', t, a);
    }
  }
}
