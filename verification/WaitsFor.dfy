/** The waits-for graph of the deadlock detector as a value: paths, cycles, and when a
    search has shown that there is none. */
module WaitsFor {

  const TWO31: nat := 0x8000_0000
  const TWO32: nat := 0x1_0000_0000

  /** What one thread publishes: the transactions its own transaction waits for, that
      transaction's id (-1 when there is none) and the number of locks it holds. */
  datatype Dep = Dep(adj: seq<nat>, txnid: int, locks: int)

  type Table = seq<Dep>

  /** Transaction ids are dealt out round-robin. */
  function Thread(t: Table, id: nat): (u: nat)
    requires t != []
    ensures u < |t|
  {
    id % |t|
  }

  /** add_dep: what a transaction waits for is appended to what its thread publishes. */
  function WithDep(t: Table, id: nat, txnids: seq<nat>, locks: int): Table
    requires t != []
  {
    var u := Thread(t, id);
    t[u := Dep(t[u].adj + txnids, id, locks)]
  }

  /** clear_dep */
  function WithoutDep(t: Table, id: nat): Table
    requires t != []
  {
    t[Thread(t, id) := Dep([], -1, 0)]
  }

  /** The cast of an id to a signed 32-bit integer. */
  function Signed32(id: nat): int {
    if id % TWO32 < TWO31 then id % TWO32 else id % TWO32 - TWO32
  }

  /** The comparison of an id on the search path with what its thread publishes. */
  predicate SeenAs(id: nat, published: int) { Signed32(id) == published }

  /** The cast is harmless exactly for ids below 2^31: only then does the comparison
      agree with comparing the id itself. */
  lemma CastAgrees(id: nat)
    ensures (forall x: int :: SeenAs(id, x) <==> id == x) <==> id < TWO31
  {
    assert SeenAs(id, Signed32(id));
  }

  ghost predicate Narrow(t: Table) {
    forall u, i :: 0 <= u < |t| && 0 <= i < |t[u].adj| ==> t[u].adj[i] < TWO31
  }

  /** Thread `u` waits for the transaction that thread `v` is running; an edge to a
      transaction that is no longer there does not count. */
  ghost predicate Edge(t: Table, u: nat, v: nat) {
    && u < |t| && v < |t|
    && exists i :: 0 <= i < |t[u].adj| && Thread(t, t[u].adj[i]) == v && t[v].txnid == t[u].adj[i]
  }

  /** What the search takes for the end of a cycle: thread `u` names, up to the cast, the
      transaction that thread `v` is running. */
  ghost predicate Closes(t: Table, u: nat, v: nat) {
    && u < |t| && v < |t|
    && exists i :: 0 <= i < |t[u].adj| && Thread(t, t[u].adj[i]) == v && SeenAs(t[u].adj[i], t[v].txnid)
  }

  lemma ClosesIsEdge(t: Table, u: nat, v: nat)
    requires Narrow(t)
    ensures Closes(t, u, v) <==> Edge(t, u, v)
  {
    if u < |t| && v < |t| {
      forall i | 0 <= i < |t[u].adj| ensures SeenAs(t[u].adj[i], t[v].txnid) <==> t[v].txnid == t[u].adj[i] {
        assert t[u].adj[i] < TWO31;
      }
    }
  }

  ghost predicate Path(t: Table, p: seq<nat>) {
    && (forall i :: 0 <= i < |p| ==> p[i] < |t|)
    && (forall i :: 0 < i < |p| ==> Edge(t, p[i - 1], p[i]))
  }

  /** A walk from `u` that comes back to a node it has passed. */
  ghost predicate Lasso(t: Table, u: nat, p: seq<nat>, k: nat) {
    && p != [] && p[0] == u && Path(t, p) && k < |p| && Edge(t, p[|p| - 1], p[k])
  }

  /** A cycle of live edges can be reached from `u`. */
  ghost predicate Cyclic(t: Table, u: nat) {
    exists p, k :: Lasso(t, u, p, k)
  }

  /** The transaction `id` is in the table and waits, over any number of others, for a cycle. */
  ghost predicate Deadlocked(t: Table, id: nat) {
    t != [] && t[Thread(t, id)].txnid == id && Cyclic(t, Thread(t, id))
  }

  /** Every edge of a listed node leads to an earlier one. */
  ghost predicate Ordered(t: Table, order: seq<nat>) {
    forall i, w :: 0 <= i < |order| && Edge(t, order[i], w) ==> w in order[..i]
  }

  lemma {:induction false} Descends(t: Table, order: seq<nat>, i: nat, p: seq<nat>, k: nat)
    requires Ordered(t, order) && i < |order| && Path(t, p)
    requires 0 < k < |p| && p[0] == order[i]
    ensures p[k] in order[..i]
  {
    if k == 1 {
      assert Edge(t, order[i], p[1]);
    } else {
      Descends(t, order, i, p, k - 1);
      var j :| 0 <= j < i && order[j] == p[k - 1];
      assert Edge(t, order[j], p[k]);
      assert order[..j] <= order[..i];
    }
  }

  /** No cycle can be reached from a listed node. */
  lemma {:induction false} OrderedHasNoLasso(t: Table, order: seq<nat>, i: nat, p: seq<nat>, k: nat)
    requires Ordered(t, order) && i < |order|
    ensures !Lasso(t, order[i], p, k)
    decreases i, |p|
  {
    if Lasso(t, order[i], p, k) {
      var q := p + [p[k]];
      assert Path(t, q) by {
        forall j | 0 < j < |q| ensures Edge(t, q[j - 1], q[j]) {
          if j < |p| { assert Edge(t, p[j - 1], p[j]); }
        }
      }
      Descends(t, order, i, q, |p|);
      if k == 0 {
        var j :| 0 <= j < i && order[j] == p[0];
        OrderedHasNoLasso(t, order, j, p, k);
      } else {
        Descends(t, order, i, q, 1);
        var j :| 0 <= j < i && order[j] == p[1];
        assert Path(t, p[1..]) by {
          forall m | 0 < m < |p[1..]| ensures Edge(t, p[1..][m - 1], p[1..][m]) {
            assert Edge(t, p[m], p[m + 1]);
          }
        }
        OrderedHasNoLasso(t, order, j, p[1..], k - 1);
      }
    }
  }

  lemma CycleNodesAreOwn(t: Table, p: seq<nat>, k: nat, i: nat)
    requires Path(t, p) && k <= i < |p| && Edge(t, p[|p| - 1], p[k])
    ensures t[p[i]].txnid >= 0 && Thread(t, t[p[i]].txnid) == p[i]
    ensures Narrow(t) ==> t[p[i]].txnid < TWO31
  {
    if i > k { assert Edge(t, p[i - 1], p[i]); }
  }

  /** Two threads whose transactions wait for each other, with ids from 2^31 on: a deadlock
      that no comparison on the search path can see. */
  lemma WideDeadlock()
    ensures var t := [Dep([TWO31 + 1], TWO31, 1), Dep([TWO31], TWO31 + 1, 1)];
            Cyclic(t, 0) && forall u, v :: !Closes(t, u, v)
  {
    var t := [Dep([TWO31 + 1], TWO31, 1), Dep([TWO31], TWO31 + 1, 1)];
    assert t[0].adj[0] == TWO31 + 1 && t[1].adj[0] == TWO31;
    assert Edge(t, 0, 1) && Edge(t, 1, 0);
    assert Lasso(t, 0, [0, 1], 0);
  }

  lemma OrderedIsAcyclic(t: Table, order: seq<nat>, u: nat)
    requires Ordered(t, order) && u in order
    ensures !Cyclic(t, u)
  {
    var i :| 0 <= i < |order| && order[i] == u;
    forall p, k ensures !Lasso(t, u, p, k) {
      OrderedHasNoLasso(t, order, i, p, k);
    }
  }

  /** Among the nodes `q`, the transaction `id` holds the fewest locks, if that is fewer than
      the limit; otherwise there is no victim. */
  ghost predicate Fewest(t: Table, q: seq<nat>, least: int, id: nat, limit: int, none: nat) {
    && (forall i :: 0 <= i < |q| ==> q[i] < |t| && least <= t[q[i]].locks)
    && (if least == limit then id == none
        else least < limit && exists i :: 0 <= i < |q| && q[i] < |t| && t[q[i]].locks == least && t[q[i]].txnid == id)
  }

  /** An entry that is cleared takes every edge from and to it away. */
  lemma ClearedIsIsolated(t: Table, id: nat, v: nat)
    requires t != []
    ensures var t', u := WithoutDep(t, id), Thread(t, id);
      && !Edge(t', u, v) && !Edge(t', v, u)
      && (v != u ==> forall w: nat :: w != u ==> (Edge(t', v, w) <==> Edge(t, v, w)))
  {
    var t', u := WithoutDep(t, id), Thread(t, id);
    forall w: nat | v != u && w != u ensures Edge(t', v, w) <==> Edge(t, v, w) {
      if v < |t| && w < |t| {
        assert t'[v] == t[v] && t'[w] == t[w];
        forall i | 0 <= i < |t[v].adj| ensures Thread(t', t[v].adj[i]) == Thread(t, t[v].adj[i]) {}
      }
    }
  }
}
