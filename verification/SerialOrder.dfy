/** A serial history and the version histories of the rows side by side: what the proofs of the
    protocols that order transactions by timestamp have in common. */
module SerialOrder {
  import opened Serial
  import opened Versions

  /** The version history of every row. */
  type Histories = seq<seq<Version>>

  ghost predicate Agrees(rows: Histories, db: Db, order: seq<Txn>, at: nat) {
    && |rows| == |db|
    && forall x :: 0 <= x < |db| ==> rows[x] != [] && At(db, order, at)[x] == ValueAt(rows[x], at)
  }

  /** The committed transactions, in timestamp order, form a serial history that produces
      exactly the versions of the rows, at any time. */
  ghost predicate Follows(rows: Histories, db: Db, order: seq<Txn>, log: seq<Txn>) {
    && Sorted(order) && Replays(db, order)
    && multiset(order) == multiset(log)
    && forall at :: Agrees(rows, db, order, at)
  }

  lemma StartFollows(rows: Histories, db: Db)
    requires |rows| == |db| && forall x :: 0 <= x < |db| ==> rows[x] == [Version(0, db[x])]
    ensures Follows(rows, db, [], [])
  {
    forall at ensures Agrees(rows, db, [], at) {}
  }

  /** A commit appends the versions that the transaction writes. */
  ghost predicate Appends(rows: Histories, rows': Histories, txn: Txn) {
    && |rows'| == |rows|
    && forall x :: 0 <= x < |rows| ==>
         rows'[x] == if x in txn.written then rows[x] + [Version(txn.ts, txn.written[x])] else rows[x]
  }

  lemma AppendAgrees(rows: Histories, rows': Histories, db: Db, order: seq<Txn>, order': seq<Txn>, txn: Txn, at: nat)
    requires Agrees(rows, db, order, at) && Appends(rows, rows', txn)
    requires At(db, order', at) == if at < txn.ts then At(db, order, at) else Apply(At(db, order, at), txn.written)
    ensures Agrees(rows', db, order', at)
  {
    hide At, ValueAt;
    forall x | 0 <= x < |db| ensures rows'[x] != [] && At(db, order', at)[x] == ValueAt(rows'[x], at) {
      if x in txn.written { Append(rows[x], Version(txn.ts, txn.written[x]), at); }
    }
  }

  /** A transaction that has read the rows as of its timestamp, and writes nothing that a later
      one has read or written, may enter the history. */
  lemma CommitFollows(rows: Histories, rows': Histories, db: Db, order: seq<Txn>, log: seq<Txn>, txn: Txn)
    requires Follows(rows, db, order, log) && Appends(rows, rows', txn)
    requires Legal(At(db, order, txn.ts), txn)
    requires forall i :: 0 <= i < |order| && order[i].ts > txn.ts ==> Untouched(txn, order[i])
    ensures Follows(rows', db, Insert(order, txn), log + [txn])
  {
    hide Replays, Legal, Untouched, Agrees, Appends, Insert, Sorted, At;
    InsertKeepsSerial(db, order, txn);
    InsertAdds(order, txn);
    forall at: nat ensures Agrees(rows', db, Insert(order, txn), at) {
      assert Agrees(rows, db, order, at);
      InsertChangesAt(db, order, txn, at);
      AppendAgrees(rows, rows', db, order, Insert(order, txn), txn, at);
    }
  }

  /** The latest versions are the result of the history. */
  lemma LatestIsResult(rows: Histories, db: Db, order: seq<Txn>, log: seq<Txn>, x: nat)
    requires Follows(rows, db, order, log) && x < |rows|
    ensures |rows| == |db| && rows[x] != [] && Last(rows[x]).value == Exec(db, order)[x]
  {
    hide Replays, Sorted;
    assert Agrees(rows, db, order, 0);
    var end := Last(rows[x]).ts + if order == [] then 0 else order[|order| - 1].ts;
    assert Agrees(rows, db, order, end);
    AtLast(rows[x], end);
    assert order[..Pos(order, end)] == order;
  }
}
