/** The deadlock detector: a depth-first search over the table in which the threads publish
    what they wait for. */
module DlDetect {
  import opened WaitsFor

  const LIMIT: int := 1000
  const NONE: nat := 0xFFFF_FFFF_FFFF_FFFF

  /** The working data of one search.  The source leaves `onloop` and `loopstart`
      uninitialised, so they start with any value. */
  class DetectData {
    const visited: array<bool>
    const recStack: array<bool>
    var loop: bool
    var onloop: bool
    var loopstart: int
    var minLockNum: int
    var minTxnid: nat

    constructor (size: nat, onloop: bool, loopstart: int)
      ensures fresh(visited) && fresh(recStack) && visited != recStack
      ensures visited[..] == seq(size, i => false) && recStack[..] == seq(size, i => false)
      ensures !loop && minLockNum == LIMIT && minTxnid == NONE
    {
      visited := new bool[size](i => false);
      recStack := new bool[size](i => false);
      loop := false;
      minLockNum := LIMIT;
      minTxnid := NONE;
      this.onloop := onloop;
      this.loopstart := loopstart;
    }
  }

  /** The state of a search at the path `stack`: the marks are exactly the path and the
      nodes already finished, and what is finished reaches no cycle. */
  ghost predicate Search(t: Table, stack: seq<nat>, order: seq<nat>, visited: seq<bool>, recStack: seq<bool>) {
    && |visited| == |recStack| == |t|
    && Path(t, stack)
    && (forall v :: 0 <= v < |t| ==> (recStack[v] <==> v in stack))
    && (forall v :: 0 <= v < |t| ==> (visited[v] <==> v in stack || v in order))
    && (forall v :: v in order ==> v < |t| && v !in stack)
    && (Narrow(t) ==> Ordered(t, order))
  }

  /** The search came back to `p[k]` along `p`, which starts with the path `stack`. */
  ghost predicate Found(t: Table, stack: seq<nat>, p: seq<nat>, k: nat) {
    && stack <= p && p != [] && Path(t, p) && k < |p| && Closes(t, p[|p| - 1], p[k])
  }

  lemma Enter(t: Table, path: seq<nat>, order: seq<nat>, vis: seq<bool>, rec: seq<bool>)
    requires path != [] && path[|path| - 1] < |t|
    requires Search(t, path[..|path| - 1], order, vis, rec) && !vis[path[|path| - 1]]
    requires |path| > 1 ==> Edge(t, path[|path| - 2], path[|path| - 1])
    ensures Search(t, path, order, vis[path[|path| - 1] := true], rec[path[|path| - 1] := true])
    ensures path[|path| - 1] !in path[..|path| - 1]
  {
    var stack := path[..|path| - 1];
    assert path == stack + [path[|path| - 1]];
    forall i | 0 < i < |path| ensures Edge(t, path[i - 1], path[i]) {
      if i < |stack| { assert Edge(t, stack[i - 1], stack[i]); }
    }
  }

  lemma LeaveOrdered(t: Table, order: seq<nat>, u: nat)
    requires Ordered(t, order) && forall v :: Edge(t, u, v) ==> v in order
    ensures Ordered(t, order + [u])
  {
    hide Edge;
    var o := order + [u];
    forall i, w | 0 <= i < |o| && Edge(t, o[i], w) ensures w in o[..i] {
      if i < |order| { assert o[..i] == order[..i]; } else { assert o[..i] == order; }
    }
  }

  lemma Leave(t: Table, path: seq<nat>, order: seq<nat>, vis: seq<bool>, rec: seq<bool>) returns (o: seq<nat>)
    requires path != [] && Search(t, path, order, vis, rec) && path[|path| - 1] !in path[..|path| - 1]
    requires Narrow(t) ==> forall v :: Edge(t, path[|path| - 1], v) ==> v in order
    ensures o == order + [path[|path| - 1]]
    ensures Search(t, path[..|path| - 1], o, vis, rec[path[|path| - 1] := false])
  {
    hide Edge, Ordered, Narrow;
    var stack := path[..|path| - 1];
    o := order + [path[|path| - 1]];
    assert path == stack + [path[|path| - 1]];
    forall i | 0 < i < |stack| ensures Edge(t, stack[i - 1], stack[i]) {
      assert Edge(t, path[i - 1], path[i]);
    }
    if Narrow(t) { LeaveOrdered(t, order, path[|path| - 1]); }
  }

  /** Taking one more node of the cycle into account. */
  lemma Consider(t: Table, p: seq<nat>, i: nat, least: int, id: nat)
    requires 0 < i <= |p| && p[i - 1] < |t|
    requires Fewest(t, p[i..], least, id, LIMIT, NONE)
    ensures var d := t[p[i - 1]];
            d.txnid >= 0 ==>
            if d.locks < least then Fewest(t, p[i - 1..], d.locks, d.txnid, LIMIT, NONE)
            else Fewest(t, p[i - 1..], least, id, LIMIT, NONE)
  {
    var q, r := p[i..], p[i - 1..];
    assert r == [p[i - 1]] + q;
    assert forall j :: 0 <= j < |q| ==> q[j] == r[j + 1];
    assert t[r[0]].locks == t[p[i - 1]].locks;
  }

  /** What a successful search reports on its way back at depth `depth`. */
  ghost predicate Reported(t: Table, stack: seq<nat>, depth: nat, p: seq<nat>, k: nat,
                           onloop: bool, loopstart: int, least: int, id: nat)
  {
    && Found(t, stack, p, k) && depth <= |p| && onloop == (depth > k) && loopstart == p[k]
    && Fewest(t, p[if depth > k then depth else k..], least, id, LIMIT, NONE)
  }

  /** Returning from the node `u` of the search path: it is taken into account when it lies
      on the cycle, and the cycle ends where it was found to start. */
  lemma ReportUp(t: Table, path: seq<nat>, p: seq<nat>, k: nat, onloop: bool, start: int, least: int, id: nat)
    requires path != [] && path[|path| - 1] !in path[..|path| - 1]
    requires Reported(t, path, |path|, p, k, onloop, start, least, id)
    requires path[|path| - 1] < |t| && t[path[|path| - 1]].txnid >= 0
    ensures var u := path[|path| - 1];
            var less := onloop && t[u].locks < least;
            Reported(t, path, |path| - 1, p, k, onloop && u != start, start,
                     if less then t[u].locks else least, if less then t[u].txnid else id)
  {
    var n := |path| - 1;
    assert p[n] == path[n];
    if k < n { assert p[k] == path[k] == path[..n][k]; }
    if onloop { Consider(t, p, n + 1, least, id); }
  }

  /** Who is told to abort for the cycle `q`: the thread on it with the fewest locks, if it has
      fewer than the limit.  Otherwise the missing id is reduced to a thread all the same,
      which is told to abort if it runs no transaction. */
  ghost predicate Sentenced(t: Table, q: seq<nat>, before: seq<bool>, after: seq<bool>) {
    && |before| == |t| > 0 && (forall i :: 0 <= i < |q| ==> q[i] < |t|)
    && if exists i :: 0 <= i < |q| && t[q[i]].locks < LIMIT
       then exists i :: 0 <= i < |q| && after == before[q[i] := true]
                        && forall j :: 0 <= j < |q| ==> t[q[i]].locks <= t[q[j]].locks
       else after == if t[Thread(t, NONE)].txnid == -1 then before[Thread(t, NONE) := true] else before
  }

  lemma Sentence(t: Table, p: seq<nat>, k: nat, least: int, id: nat, before: seq<bool>, after: seq<bool>)
    requires t != [] && |before| == |t| && p != [] && Path(t, p) && k < |p| && Edge(t, p[|p| - 1], p[k])
    requires Fewest(t, p[k..], least, id, LIMIT, NONE)
    requires after == if t[Thread(t, id)].txnid == (if id == NONE then -1 else id) then before[Thread(t, id) := true] else before
    requires Narrow(t)
    ensures Sentenced(t, p[k..], before, after)
  {
    var q := p[k..];
    if least < LIMIT {
      var i :| 0 <= i < |q| && q[i] < |t| && t[q[i]].locks == least && t[q[i]].txnid == id;
      CycleNodesAreOwn(t, p, k, k + i);
    }
  }

  lemma EdgeThere(t: Table, u: nat, n: nat)
    requires u < |t| && n < |t[u].adj| && t[Thread(t, t[u].adj[n])].txnid == t[u].adj[n]
    ensures Edge(t, u, Thread(t, t[u].adj[n]))
  {
  }

  /** The search has come back to `path[k]`. */
  lemma ReportHere(t: Table, path: seq<nat>, k: nat, n: nat)
    requires k < |path| && Path(t, path) && n < |t[path[|path| - 1]].adj|
    requires var id := t[path[|path| - 1]].adj[n]; path[k] == Thread(t, id) && SeenAs(id, t[path[k]].txnid)
    ensures Reported(t, path, |path|, path, k, true, path[k], LIMIT, NONE)
  {
    assert Closes(t, path[|path| - 1], path[k]);
  }

  /** What the search reports at a node holds on the path to it. */
  lemma ReportBack(t: Table, path: seq<nat>, next: nat, p: seq<nat>, k: nat, onloop: bool, start: int, least: int, id: nat)
    requires Reported(t, path + [next], |path|, p, k, onloop, start, least, id)
    ensures Reported(t, path, |path|, p, k, onloop, start, least, id)
  {
    hide Fewest, Path, Closes;
    assert path == (path + [next])[..|path|];
  }

  lemma SearchSizes(t: Table, path: seq<nat>, order: seq<nat>, vis: seq<bool>, rec: seq<bool>)
    requires Search(t, path, order, vis, rec)
    ensures |vis| == |rec| == |t| && forall i :: 0 <= i < |path| ==> path[i] < |t|
  {
  }

  lemma OnPath(t: Table, path: seq<nat>, order: seq<nat>, vis: seq<bool>, rec: seq<bool>, v: nat)
    requires Search(t, path, order, vis, rec) && v < |t|
    ensures |vis| == |rec| == |t| && Path(t, path) && (rec[v] ==> exists k :: 0 <= k < |path| && path[k] == v)
  {
  }

  /** An edge that has been dealt with leads to a finished node. */
  lemma Passed(t: Table, path: seq<nat>, order: seq<nat>, vis: seq<bool>, rec: seq<bool>, u: nat, n: nat)
    requires Search(t, path, order, vis, rec) && u < |t| && n < |t[u].adj|
    requires var v := Thread(t, t[u].adj[n]);
             !(rec[v] && SeenAs(t[u].adj[n], t[v].txnid)) && (vis[v] || t[v].txnid != t[u].adj[n])
    ensures Narrow(t) && t[Thread(t, t[u].adj[n])].txnid == t[u].adj[n] ==> Thread(t, t[u].adj[n]) in order
  {
  }

  lemma AllScanned(t: Table, u: nat, order: seq<nat>)
    requires u < |t|
    requires Narrow(t) ==> forall i :: 0 <= i < |t[u].adj| && t[Thread(t, t[u].adj[i])].txnid == t[u].adj[i] ==> Thread(t, t[u].adj[i]) in order
    ensures Narrow(t) ==> forall v :: Edge(t, u, v) ==> v in order
  {
  }

  ghost predicate Keeps(before: seq<bool>, after: seq<bool>) {
    |before| == |after| && forall v :: 0 <= v < |before| && before[v] ==> after[v]
  }

  lemma Shrinks(before: seq<bool>, after: seq<bool>, u: nat)
    requires Keeps(before, after) && u < |before| && !before[u] && after[u]
    ensures Unvisited(after) < Unvisited(before)
  {
    assert u in Unvisited(before) && u !in Unvisited(after);
  }

  lemma KeepsShrinks(before: seq<bool>, after: seq<bool>)
    requires Keeps(before, after)
    ensures Unvisited(after) < Unvisited(before) || Unvisited(after) == Unvisited(before)
  {
    assert Unvisited(after) <= Unvisited(before);
  }

  function Unvisited(visited: seq<bool>): set<nat> {
    set v: nat | v < |visited| && !visited[v]
  }

  class DlDetect {
    const noDl: bool
    const dependency: array<Dep>
    /** The abort flags of the transactions the threads run. */
    const lockAbort: array<bool>

    ghost predicate Valid() {
      dependency.Length > 0 && lockAbort.Length == dependency.Length
    }

    constructor (threads: nat, noDl: bool)
      requires threads > 0
      ensures Valid() && fresh(dependency) && fresh(lockAbort)
      ensures dependency.Length == threads && this.noDl == noDl
      ensures forall u, v :: !Edge(dependency[..], u, v)
    {
      this.noDl := noDl;
      dependency := new Dep[threads](i => Dep([], -1, 0));
      lockAbort := new bool[threads](i => false);
    }

    method AddDep(id: nat, txnids: seq<nat>, locks: int)
      requires Valid()
      modifies dependency
      ensures dependency[..] == if noDl then old(dependency[..]) else WithDep(old(dependency[..]), id, txnids, locks)
      ensures !noDl ==>
                var u := id % dependency.Length;
                && dependency[u].adj == old(dependency[u].adj) + txnids
                && dependency[u].txnid == id && dependency[u].locks == locks
      ensures forall v :: 0 <= v < dependency.Length && (noDl || v != id % dependency.Length) ==> dependency[v] == old(dependency[v])
    {
      if noDl { return; }
      var thd := id % dependency.Length;
      dependency[thd] := Dep(dependency[thd].adj, id, locks);
      ghost var adj := old(dependency[thd].adj);
      assert adj + txnids[..0] == adj;
      for i := 0 to |txnids|
        invariant dependency[..] == old(dependency[..])[thd := Dep(adj + txnids[..i], id, locks)]
      {
        assert adj + txnids[..i] + [txnids[i]] == adj + txnids[..i + 1];
        dependency[thd] := Dep(dependency[thd].adj + [txnids[i]], id, locks);
      }
      assert txnids[..|txnids|] == txnids;
      assert dependency[..][thd] == dependency[thd];
    }

    method ClearDep(id: nat)
      requires Valid()
      modifies dependency
      ensures dependency[..] == if noDl then old(dependency[..]) else WithoutDep(old(dependency[..]), id)
      ensures !noDl ==> var u := id % dependency.Length; dependency[u].adj == [] && dependency[u].txnid == -1 && dependency[u].locks == 0
      ensures forall v :: 0 <= v < dependency.Length && (noDl || v != id % dependency.Length) ==> dependency[v] == old(dependency[v])
    {
      if noDl { return; }
      dependency[id % dependency.Length] := Dep([], -1, 0);
    }

    /** Depth-first search from the transaction `id`, which ends the search path `path`.  The
        result says whether a cycle was found; if none was, the node is finished. */
    method NextNode(id: nat, d: DetectData, ghost path: seq<nat>, ghost order: seq<nat>)
      returns (r: bool, ghost order': seq<nat>, ghost p: seq<nat>, ghost k: nat)
      requires Valid() && d.visited != d.recStack
      requires path != [] && path[|path| - 1] == Thread(dependency[..], id)
      requires Search(dependency[..], path[..|path| - 1], order, d.visited[..], d.recStack[..])
      requires !d.visited[Thread(dependency[..], id)]
      requires !d.loop && d.minLockNum == LIMIT && d.minTxnid == NONE
      requires |path| > 1 ==> Edge(dependency[..], path[|path| - 2], path[|path| - 1])
      modifies d, d.visited, d.recStack
      ensures d.recStack[..] == old(d.recStack[..])
      ensures Keeps(old(d.visited[..]), d.visited[..])
      ensures r == d.loop
      ensures !r ==> d.minLockNum == LIMIT && d.minTxnid == NONE
      ensures r ==> dependency[Thread(dependency[..], id)].txnid == id
      ensures !r && dependency[Thread(dependency[..], id)].txnid == id ==>
                && Search(dependency[..], path[..|path| - 1], order', d.visited[..], d.recStack[..])
                && path[|path| - 1] in order' && order <= order'
      ensures r ==> Reported(dependency[..], path, |path| - 1, p, k, d.onloop, d.loopstart, d.minLockNum, d.minTxnid)
      decreases Unvisited(d.visited[..]), 0
    {
      hide Fewest, Edge, Narrow, Path, Ordered;
      var thd: nat := id % dependency.Length;
      ghost var t, stack, vis, rec := dependency[..], path[..|path| - 1], d.visited[..], d.recStack[..];
      Enter(t, path, order, vis, rec);
      d.visited[thd] := true;
      d.recStack[thd] := true;
      order', p, k := order, [], 0;
      var lockNum := dependency[thd].locks;
      if dependency[thd].txnid != id {
        d.recStack[thd] := false;
        assert d.recStack[..] == rec;
        return false, order, [], 0;
      }
      Shrinks(vis, d.visited[..], thd);
      order', p, k := Scan(thd, d, path, order);
      if d.loop {
        ReportUp(t, path, p, k, d.onloop, d.loopstart, d.minLockNum, d.minTxnid);
      } else {
        order' := Leave(t, path, order', d.visited[..], rec[thd := true]);
      }
      r := LeaveNode(thd, id, lockNum, d);
      assert d.recStack[..] == rec;
    }

    /** The end of the search at a node: it leaves the search path and, when it lies on the
        cycle that was found, competes for holding the fewest locks. */
    method LeaveNode(thd: nat, id: nat, lockNum: int, d: DetectData) returns (r: bool)
      requires thd < d.recStack.Length
      modifies d, d.recStack
      ensures r == d.loop == old(d.loop) && d.loopstart == old(d.loopstart)
      ensures d.recStack[..] == old(d.recStack[..])[thd := false]
      ensures d.onloop == (old(d.onloop) && thd != d.loopstart)
      ensures var less := old(d.loop && d.onloop) && lockNum < old(d.minLockNum);
              && d.minLockNum == (if less then lockNum else old(d.minLockNum))
              && d.minTxnid == (if less then id else old(d.minTxnid))
    {
      d.recStack[thd] := false;
      if d.loop && d.onloop && lockNum < d.minLockNum {
        d.minLockNum := lockNum;
        d.minTxnid := id;
      }
      if thd == d.loopstart {
        d.onloop := false;
      }
      r := d.loop;
    }

    /** The loop of the search over the edges of the thread `thd`. */
    method Scan(thd: nat, d: DetectData, ghost path: seq<nat>, ghost order: seq<nat>)
      returns (ghost order': seq<nat>, ghost p: seq<nat>, ghost k: nat)
      requires Valid() && d.visited != d.recStack
      requires Search(dependency[..], path, order, d.visited[..], d.recStack[..])
      requires path != [] && path[|path| - 1] == thd
      requires !d.loop && d.minLockNum == LIMIT && d.minTxnid == NONE
      modifies d, d.visited, d.recStack
      ensures d.recStack[..] == old(d.recStack[..])
      ensures Keeps(old(d.visited[..]), d.visited[..])
      ensures !d.loop ==>
                && d.minLockNum == LIMIT && d.minTxnid == NONE
                && Search(dependency[..], path, order', d.visited[..], d.recStack[..])
                && order <= order'
                && (Narrow(dependency[..]) ==> forall v :: Edge(dependency[..], thd, v) ==> v in order')
      ensures d.loop ==> Reported(dependency[..], path, |path|, p, k, d.onloop, d.loopstart, d.minLockNum, d.minTxnid)
      decreases Unvisited(d.visited[..]), 1
    {
      hide Ordered, Edge, Closes, Fewest, Found, Reported, Search, Narrow, SeenAs;
      ghost var t, vis := dependency[..], d.visited[..];
      SearchSizes(t, path, order, d.visited[..], d.recStack[..]);
      var txnids := dependency[thd].adj;
      order', p, k := order, [], 0;
      var n := 0;
      while n < |txnids|
        invariant n <= |txnids|
        invariant Search(t, path, order', d.visited[..], d.recStack[..])
        invariant d.recStack[..] == old(d.recStack[..])
        invariant Keeps(vis, d.visited[..])
        invariant !d.loop && d.minLockNum == LIMIT && d.minTxnid == NONE
        invariant order <= order'
        invariant Narrow(t) ==> forall i :: 0 <= i < n && t[Thread(t, txnids[i])].txnid == txnids[i] ==> Thread(t, txnids[i]) in order'
      {
        var next: nat := txnids[n] % dependency.Length;
        OnPath(t, path, order', d.visited[..], d.recStack[..], next);
        if d.recStack[next] && SeenAs(txnids[n], dependency[next].txnid) {
          d.loop, d.onloop, d.loopstart := true, true, next;
          k :| 0 <= k < |path| && path[k] == next;
          p := path;
          ReportHere(t, path, k, n);
          return;
        }
        if !d.visited[next] && dependency[next].txnid == txnids[n] {
          EdgeThere(t, thd, n);
          var found;
          KeepsShrinks(vis, d.visited[..]);
          assert (path + [next])[..|path|] == path;
          found, order', p, k := NextNode(txnids[n], d, path + [next], order');
          if found {
            ReportBack(t, path, next, p, k, d.onloop, d.loopstart, d.minLockNum, d.minTxnid);
            return;
          }
        } else {
          Passed(t, path, order', d.visited[..], d.recStack[..], thd, n);
        }
        n := n + 1;
      }
      AllScanned(t, thd, order');
    }

    /** Whether `id` is in a deadlock or waits for one.  The transaction on the cycle that
        holds the fewest locks is told to abort. */
    method DetectCycle(id: nat, onloop: bool, loopstart: int) returns (r: int, ghost p: seq<nat>, ghost k: nat)
      requires Valid()
      modifies lockAbort
      ensures r == 0 || r == 1
      ensures r == 0 ==> lockAbort[..] == old(lockAbort[..])
      ensures r == 1 ==> !noDl && (exists u, v :: Closes(dependency[..], u, v))
      ensures !noDl && Narrow(dependency[..]) ==>
                && (r == 1 <==> Deadlocked(dependency[..], id))
                && (r == 1 ==> Lasso(dependency[..], Thread(dependency[..], id), p, k)
                               && Sentenced(dependency[..], p[k..], old(lockAbort[..]), lockAbort[..]))
    {
      if noDl { return 0, [], 0; }
      var thd: nat := id % dependency.Length;
      var d := new DetectData(dependency.Length, onloop, loopstart);
      ghost var t, order := dependency[..], [];
      assert [thd][..0] == [];
      r, p, k := 0, [], 0;
      var found;
      found, order, p, k := NextNode(id, d, [thd], []);
      if found {
        r := 1;
        assert Closes(t, p[|p| - 1], p[k]);
        Condemn(d.minTxnid);
        if Narrow(t) {
          ClosesIsEdge(t, p[|p| - 1], p[k]);
          assert Lasso(t, thd, p, k);
          Sentence(t, p, k, d.minLockNum, d.minTxnid, old(lockAbort[..]), lockAbort[..]);
        }
      } else if Narrow(t) && dependency[thd].txnid == id {
        OrderedIsAcyclic(t, order, thd);
      }
    }

    /** The abort flag of the transaction `id`, if its thread still runs it. */
    method Condemn(id: nat)
      requires Valid()
      modifies lockAbort
      ensures var u := Thread(dependency[..], id);
              lockAbort[..] == if dependency[u].txnid == (if id == NONE then -1 else id) then old(lockAbort[..])[u := true]
                               else old(lockAbort[..])
    {
      var thd := id % dependency.Length;
      if dependency[thd].txnid == (if id == NONE then -1 else id) {
        lockAbort[thd] := true;
      }
    }
  }
}
