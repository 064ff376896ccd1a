/** The lock accounting that the Silo and the TicToc commit share: rounds of try-lock, the
    jumps out of them, and the release at the end.  What other threads do decides which locks
    can be had and which checks succeed; it is an argument here. */
module CommitLocks {

  /** One round of the no-wait loop as the outside lets it go: which rows can be locked, which
      still show the version that was read, whether the pre-abort checks pass, and whether
      the bounded back-off lets the round be repeated. */
  datatype Round = Round(free: seq<bool>, same: seq<bool>, checks: bool, again: bool)

  /** How the loop over the rounds ends. */
  datatype End = AllLocked | Changed(taken: nat) | PreAborted | Exhausted(taken: nat) | Spinning

  datatype Event = Acquired(row: nat) | Released(row: nat)

  ghost predicate Fits(rounds: seq<Round>, n: nat) {
    forall i :: 0 <= i < |rounds| ==> |rounds[i].free| == |rounds[i].same| == n
  }

  /** The first row from `i` on that cannot be locked or has changed. */
  function Stop(r: Round, i: nat): (k: nat)
    requires |r.free| == |r.same| && i <= |r.free|
    ensures i <= k <= |r.free|
    ensures forall j :: i <= j < k ==> r.free[j] && r.same[j]
    ensures k < |r.free| ==> !r.free[k] || !r.same[k]
    decreases |r.free| - i
  {
    if i < |r.free| && r.free[i] && r.same[i] then Stop(r, i + 1) else i
  }

  function Ending(rounds: seq<Round>, n: nat, preAbort: bool, bounded: bool): End
    requires Fits(rounds, n)
  {
    if rounds == [] then Spinning
    else
      var r, k := rounds[0], Stop(rounds[0], 0);
      if k == n then AllLocked
      else if r.free[k] then Changed(k + 1)
      else if preAbort && !r.checks then PreAborted
      else if bounded && !r.again then Exhausted(k)
      else Ending(rounds[1..], n, preAbort, bounded)
  }

  /** Every row can be locked and has not changed. */
  ghost predicate Clear(r: Round) {
    |r.free| == |r.same| && forall j :: 0 <= j < |r.free| ==> r.free[j] && r.same[j]
  }

  /** Row `k` is the first one that cannot be locked or has changed. */
  ghost predicate StopsAt(r: Round, k: nat) {
    && k < |r.free| == |r.same| && (forall j :: 0 <= j < k ==> r.free[j] && r.same[j])
    && !(r.free[k] && r.same[k])
  }

  /** The round meets a locked row and is repeated. */
  ghost predicate Repeats(r: Round, preAbort: bool, bounded: bool) {
    && (exists k: nat :: StopsAt(r, k) && !r.free[k])
    && (preAbort ==> r.checks) && (bounded ==> r.again)
  }

  /** How the loop ends: as the first round does that is not repeated, and if all are repeated, not
      at all.  That round has locked all rows if none is locked or changed; otherwise the first
      such row says what happens. */
  lemma {:induction false} EndingIs(rounds: seq<Round>, n: nat, preAbort: bool, bounded: bool, i: nat)
    requires Fits(rounds, n) && i <= |rounds| && forall j :: 0 <= j < i ==> Repeats(rounds[j], preAbort, bounded)
    requires i < |rounds| ==> !Repeats(rounds[i], preAbort, bounded)
    ensures i == |rounds| ==> Ending(rounds, n, preAbort, bounded) == Spinning
    ensures i < |rounds| && Clear(rounds[i]) ==> Ending(rounds, n, preAbort, bounded) == AllLocked
    ensures forall k: nat :: i < |rounds| && StopsAt(rounds[i], k) ==>
              Ending(rounds, n, preAbort, bounded) ==
              if rounds[i].free[k] then Changed(k + 1) else if preAbort && !rounds[i].checks then PreAborted else Exhausted(k)
  {
    if i > 0 {
      var k: nat :| StopsAt(rounds[0], k) && !rounds[0].free[k];
      StopIs(rounds[0], k);
      assert Repeats(rounds[0], preAbort, bounded);
      EndingIs(rounds[1..], n, preAbort, bounded, i - 1);
    } else if rounds != [] {
      if Clear(rounds[0]) { assert Stop(rounds[0], 0) == n; }
      forall k: nat | StopsAt(rounds[0], k)
        ensures Ending(rounds, n, preAbort, bounded) ==
                if rounds[0].free[k] then Changed(k + 1) else if preAbort && !rounds[0].checks then PreAborted else Exhausted(k)
      {
        StopIs(rounds[0], k);
      }
    }
  }

  lemma StopIs(r: Round, k: nat)
    requires StopsAt(r, k)
    ensures Stop(r, 0) == k
  {
    hide Stop;
  }

  /** What is held after the events, if every lock was free when it was taken and held when
      it was released. */
  ghost function Replay(log: seq<Event>): (r: (bool, set<nat>)) {
    if log == [] then (true, {})
    else
      var (ok, held) := Replay(log[..|log| - 1]);
      match log[|log| - 1]
      case Acquired(x) => (ok && x !in held, held + {x})
      case Released(x) => (ok && x in held, held - {x})
  }

  function First(k: nat): (s: set<nat>)
    ensures forall x: nat :: x in s <==> x < k
  {
    if k == 0 then {} else First(k - 1) + {k - 1}
  }

  class Validation {
    const n: nat
    const preAbort: bool
    const bounded: bool
    var numLocks: nat
    ghost var log: seq<Event>

    ghost predicate Holds(held: set<nat>)
      reads this
    {
      Replay(log) == (true, held)
    }

    constructor (n: nat, preAbort: bool, bounded: bool)
      ensures this.n == n && this.preAbort == preAbort && this.bounded == bounded
      ensures numLocks == 0 && Holds({})
    {
      this.n := n;
      this.preAbort := preAbort;
      this.bounded := bounded;
      numLocks := 0;
      log := [];
    }

    ghost method Acquire(x: nat)
      modifies this`log
      ensures log == old(log) + [Acquired(x)]
    {
      log := log + [Acquired(x)];
    }

    ghost method Release(x: nat)
      modifies this`log
      ensures log == old(log) + [Released(x)]
    {
      log := log + [Released(x)];
    }

    /** Release what has been locked so far; `numLocks` is not reset. */
    method ReleaseAll()
      modifies this`log
      ensures old(Holds(First(numLocks))) ==> Holds({})
      ensures old(Holds({})) && numLocks > 0 ==> !Replay(log).0
      ensures numLocks == 0 ==> log == old(log)
    {
      ghost var held, none := Holds(First(numLocks)), Holds({});
      assert First(numLocks) - First(0) == First(numLocks) && First(numLocks) - First(numLocks) == {};
      for i := 0 to numLocks
        invariant i == 0 ==> log == old(log)
        invariant held ==> Holds(First(numLocks) - First(i))
        invariant none && i > 0 ==> !Replay(log).0
      {
        ghost var before := log;
        Release(i);
        assert log[..|log| - 1] == before;
        assert First(numLocks) - First(i) - {i} == First(numLocks) - First(i + 1);
      }
    }

    /** One round of try-locks. */
    method LockRound(r: Round) returns (changed: bool)
      requires |r.free| == |r.same| == n && Holds({})
      modifies this
      ensures changed == (Stop(r, 0) < n && r.free[Stop(r, 0)])
      ensures numLocks == Stop(r, 0) + (if changed then 1 else 0)
      ensures Holds(First(numLocks))
    {
      numLocks := 0;
      changed := false;
      var i := 0;
      assert First(0) == {};
      while i < n
        invariant numLocks == i <= n && Holds(First(i))
        invariant Stop(r, 0) == Stop(r, i)
      {
        if !r.free[i] { break; }
        ghost var before := log;
        Acquire(i);
        assert log[..|log| - 1] == before;
        assert First(i) + {i} == First(i + 1);
        numLocks := numLocks + 1;
        if !r.same[i] {
          changed := true;
          break;
        }
        i := i + 1;
      }
    }

    /** The whole commit.  Every lock is released exactly once on every way out, and all of
        them are held while the reads are validated, unless the bounded back-off gives up
        after a round that had taken locks while pre-abort is off: then, and only then, locks
        are released that are no longer held. */
    method Commit(checks: bool, rounds: seq<Round>, readsValid: bool)
      returns (committed: bool, end: End, ghost atReads: set<nat>)
      requires Fits(rounds, n) && numLocks == 0 && Holds({})
      modifies this
      ensures end == if preAbort && !checks then PreAborted else Ending(rounds, n, preAbort, bounded)
      ensures committed == (end == AllLocked && readsValid)
      ensures end == AllLocked ==> atReads == First(n)
      ensures Holds({}) <==> preAbort || !end.Exhausted? || end.taken == 0
      ensures !Replay(log).0 <==> !preAbort && end.Exhausted? && end.taken > 0
    {
      committed, atReads := false, {};
      if preAbort && !checks { return false, PreAborted, {}; }
      var k := 0;
      end := Spinning;
      while k < |rounds| && end == Spinning
        invariant k <= |rounds|
        invariant end == Spinning ==> Holds({}) && Ending(rounds, n, preAbort, bounded) == Ending(rounds[k..], n, preAbort, bounded)
        invariant end != Spinning ==> end == Ending(rounds, n, preAbort, bounded)
        invariant end == AllLocked ==> numLocks == n && Holds(First(n))
        invariant end.Changed? ==> Holds(First(numLocks))
        invariant end == PreAborted ==> numLocks == 0 && Holds({})
        invariant end.Exhausted? ==> Holds({}) && numLocks == if preAbort then 0 else end.taken
        decreases |rounds| - k
      {
        var r := rounds[k];
        var changed := LockRound(r);
        var taken := numLocks;
        if changed {
          end := Changed(taken);
        } else if numLocks == n {
          end := AllLocked;
        } else {
          ReleaseAll();
          if preAbort { numLocks := 0; }
          if preAbort && !r.checks {
            end := PreAborted;
          } else if bounded && !r.again {
            end := Exhausted(taken);
          }
        }
        k := k + 1;
      }
      if end == Spinning { return; }
      if end == AllLocked {
        atReads := Replay(log).1;
        committed := readsValid;
      }
      ReleaseAll();
    }
  }

  /** A commit that releases a lock it does not hold: pre-abort is off, the first of two rows is
      taken, the second is locked by somebody else, and the back-off gives up. */
  method UnheldRelease() returns (v: Validation, end: End)
    ensures end == Exhausted(1) && !Replay(v.log).0
  {
    v := new Validation(2, false, true);
    var committed: bool;
    ghost var atReads: set<nat>;
    var round := Round([true, false], [true, true], true, false);
    assert Stop(round, 0) == 1;
    committed, end, atReads := v.Commit(true, [round], true);
  }
}
