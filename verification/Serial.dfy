/** Serial histories: what it means for a set of committed transactions to be equivalent
    to a serial run.  Every protocol of the project is proved against this module. */
module Serial {

  /** The contents of one row, cell by cell. */
  type Val = seq<int>

  /** A database is indexed by row id. */
  type Db = seq<Val>

  /** A committed transaction: its position in the serial order, the values its reads
      returned and the values it wrote. */
  datatype Txn = Txn(ts: nat, seen: map<nat, Val>, written: map<nat, Val>)

  /** The database after the writes `w`. */
  function Apply(db: Db, w: map<nat, Val>): (r: Db)
    ensures |r| == |db|
    ensures forall x :: 0 <= x < |db| ==> r[x] == if x in w then w[x] else db[x]
  {
    seq(|db|, x requires 0 <= x < |db| => if x in w then w[x] else db[x])
  }

  /** Running the transactions one after the other. */
  function Exec(db: Db, ts: seq<Txn>): (r: Db)
    ensures |r| == |db|
  {
    if ts == [] then db else Apply(Exec(db, ts[..|ts| - 1]), ts[|ts| - 1].written)
  }

  /** Every read of `t` returned what the database `db` holds. */
  ghost predicate Legal(db: Db, t: Txn) {
    forall x :: x in t.seen ==> x < |db| && t.seen[x] == db[x]
  }

  /** Every transaction of the list, run in that order, reads exactly what it is
      recorded to have read. */
  ghost predicate Replays(db: Db, ts: seq<Txn>) {
    ts == [] || (Replays(db, ts[..|ts| - 1]) && Legal(Exec(db, ts[..|ts| - 1]), ts[|ts| - 1]))
  }

  ghost predicate Sorted(ts: seq<Txn>) {
    forall i, j :: 0 <= i < j < |ts| ==> ts[i].ts <= ts[j].ts
  }

  /** The number of transactions that come no later than `at`. */
  function Pos(ts: seq<Txn>, at: nat): (p: nat)
    ensures p <= |ts|
    ensures forall i :: p <= i < |ts| ==> ts[i].ts > at
    ensures p > 0 ==> ts[p - 1].ts <= at
  {
    if ts == [] || ts[|ts| - 1].ts <= at then |ts| else Pos(ts[..|ts| - 1], at)
  }

  /** The database as of `at`: the effect of every transaction no later than `at`. */
  function At(db: Db, ts: seq<Txn>, at: nat): (r: Db)
    ensures |r| == |db|
  {
    Exec(db, ts[..Pos(ts, at)])
  }

  /** Insert behind every transaction that is no later. */
  function Insert(ts: seq<Txn>, t: Txn): (r: seq<Txn>)
    ensures |r| == |ts| + 1
  {
    var p := Pos(ts, t.ts);
    ts[..p] + [t] + ts[p..]
  }

  lemma InsertAdds(ts: seq<Txn>, t: Txn)
    ensures multiset(Insert(ts, t)) == multiset(ts) + multiset{t}
  {
    var p := Pos(ts, t.ts);
    assert ts == ts[..p] + ts[p..];
  }

  lemma InsertMembers(ts: seq<Txn>, t: Txn)
    ensures forall i :: 0 <= i < |ts| + 1 ==> Insert(ts, t)[i] == t || Insert(ts, t)[i] in ts
  {
  }

  lemma InsertSorted(ts: seq<Txn>, t: Txn)
    requires Sorted(ts)
    ensures Sorted(Insert(ts, t))
  {
    hide Pos;
    var p, r := Pos(ts, t.ts), Insert(ts, t);
    assert forall i :: 0 <= i < |r| ==> r[i] == if i < p then ts[i] else if i == p then t else ts[i - 1];
    assert forall i :: 0 <= i < p ==> ts[i].ts <= t.ts;
  }

  /** `t` writes nothing that `u` reads or writes. */
  ghost predicate Untouched(t: Txn, u: Txn) {
    t.written.Keys !! u.seen.Keys && t.written.Keys !! u.written.Keys
  }

  lemma {:induction false} InsertAt(db: Db, ts: seq<Txn>, p: nat, t: Txn)
    requires p <= |ts| && Replays(db, ts)
    requires Legal(Exec(db, ts[..p]), t)
    requires forall i :: p <= i < |ts| ==> Untouched(t, ts[i])
    ensures Replays(db, ts[..p] + [t] + ts[p..])
    ensures Exec(db, ts[..p] + [t] + ts[p..]) == Apply(Exec(db, ts), t.written)
    decreases |ts|
  {
    hide Pos, Sorted;
    var r := ts[..p] + [t] + ts[p..];
    if p == |ts| {
      assert ts[..p] == ts && r[..|r| - 1] == ts;
    } else {
      var ts', u := ts[..|ts| - 1], ts[|ts| - 1];
      assert ts'[..p] == ts[..p];
      InsertAt(db, ts', p, t);
      var r' := ts'[..p] + [t] + ts'[p..];
      assert r[..|r| - 1] == r' && r[|r| - 1] == u;
      assert Untouched(t, u);
      assert Legal(Exec(db, r'), u);
      assert Exec(db, r) == Apply(Exec(db, r'), u.written);
    }
  }

  lemma PosIsCut(ts: seq<Txn>, at: nat, p: nat)
    requires Sorted(ts) && p <= |ts|
    requires p > 0 ==> ts[p - 1].ts <= at
    requires p < |ts| ==> ts[p].ts > at
    ensures Pos(ts, at) == p
  {
  }

  lemma {:induction false} ReplaysPrefix(db: Db, ts: seq<Txn>, p: nat)
    requires p <= |ts| && Replays(db, ts)
    ensures Replays(db, ts[..p])
    decreases |ts|
  {
    if p == |ts| {
      assert ts[..p] == ts;
    } else {
      ReplaysPrefix(db, ts[..|ts| - 1], p);
      assert ts[..|ts| - 1][..p] == ts[..p];
    }
  }

  /** Adding one transaction to a serial history.  It may land in the middle: it then has
      to have read the database as of its own position, and nothing behind it may have
      looked at the rows it writes. */
  lemma InsertKeepsSerial(db: Db, ts: seq<Txn>, t: Txn)
    requires Sorted(ts) && Replays(db, ts)
    requires Legal(At(db, ts, t.ts), t)
    requires forall i :: 0 <= i < |ts| && ts[i].ts > t.ts ==> Untouched(t, ts[i])
    ensures Sorted(Insert(ts, t)) && Replays(db, Insert(ts, t))
    ensures Exec(db, Insert(ts, t)) == Apply(Exec(db, ts), t.written)
  {
    InsertSorted(ts, t);
    InsertAt(db, ts, Pos(ts, t.ts), t);
  }

  lemma PosMonotone(ts: seq<Txn>, a: nat, b: nat)
    requires Sorted(ts) && a <= b
    ensures Pos(ts, a) <= Pos(ts, b)
  {
  }

  lemma PosOfInsert(ts: seq<Txn>, t: Txn, at: nat)
    requires Sorted(ts)
    ensures Pos(Insert(ts, t), at) == Pos(ts, at) + if at < t.ts then 0 else 1
  {
    hide Pos;
    var p, q, r := Pos(ts, t.ts), Pos(ts, at), Insert(ts, t);
    InsertSorted(ts, t);
    if at < t.ts {
      PosMonotone(ts, at, t.ts);
      PosIsCut(r, at, q);
    } else {
      PosMonotone(ts, t.ts, at);
      PosIsCut(r, at, q + 1);
    }
  }

  /** How the insertion changes every snapshot of the history. */
  lemma InsertChangesAt(db: Db, ts: seq<Txn>, t: Txn, at: nat)
    requires Sorted(ts) && Replays(db, ts)
    requires Legal(At(db, ts, t.ts), t)
    requires forall i :: 0 <= i < |ts| && ts[i].ts > t.ts ==> Untouched(t, ts[i])
    ensures At(db, Insert(ts, t), at)
         == if at < t.ts then At(db, ts, at) else Apply(At(db, ts, at), t.written)
  {
    hide Replays, Legal, Apply;
    var p, q, r := Pos(ts, t.ts), Pos(ts, at), Insert(ts, t);
    PosOfInsert(ts, t, at);
    if at < t.ts {
      PosMonotone(ts, at, t.ts);
      assert r[..q] == ts[..q];
    } else {
      PosMonotone(ts, t.ts, at);
      InsertBefore(db, ts, t, q);
    }
  }

  /** A prefix that reaches past the insertion point gains exactly the new transaction. */
  lemma InsertBefore(db: Db, ts: seq<Txn>, t: Txn, q: nat)
    requires Replays(db, ts) && Pos(ts, t.ts) <= q <= |ts|
    requires Legal(At(db, ts, t.ts), t)
    requires forall i :: 0 <= i < |ts| && ts[i].ts > t.ts ==> Untouched(t, ts[i])
    ensures Exec(db, Insert(ts, t)[..q + 1]) == Apply(Exec(db, ts[..q]), t.written)
  {
    hide Replays, Legal, Apply;
    var p, s := Pos(ts, t.ts), ts[..q];
    ReplaysPrefix(db, ts, q);
    assert s[..p] == ts[..p];
    assert Insert(ts, t)[..q + 1] == s[..p] + [t] + s[p..];
    forall i | p <= i < |s| ensures Untouched(t, s[i]) {
      assert s[i] == ts[i] && ts[i].ts > t.ts;
    }
    InsertAt(db, s, p, t);
  }
}
