/** The row manager of multi-version timestamp ordering, with its arrays changed in place.
    Every method is proved against the functions of module Mvcc. */
module RowMvcc {
  import opened Serial
  import opened Versions
  import opened MvccHistory
  import opened Mvcc

  class RowMvcc {
    var row: nat
    var latestRow: nat
    var latestWts: nat
    var oldestWts: nat
    var history: array<Slot>
    var existsPrewrite: bool
    var prewriteTs: nat
    var prewriteHisId: nat
    var maxServedRts: nat
    var requests: array<Req>
    var numVersions: nat
    var mem: seq<Val>
    const threadCnt: nat

    ghost var all: seq<Version>
    ghost var served: set<Served>
    ghost var used: set<nat>

    ghost function Model(): Row
      reads this, history, requests
    {
      Row(row, latestRow, latestWts, oldestWts, history[..], numVersions,
          existsPrewrite, prewriteTs, prewriteHisId, maxServedRts,
          requests[..], mem, threadCnt, all, served, used)
    }

    constructor (initial: Val, threads: nat)
      ensures Model() == InitRow(initial, threads)
      ensures Inv(Model())
      ensures fresh(history) && fresh(requests)
    {
      threadCnt := threads;
      mem := [initial];
      row, latestRow := 0, 0;
      latestWts, oldestWts := 0, 0;
      history := new Slot[4](_ => EMPTY);
      requests := new Req[4](_ => NO_REQ);
      existsPrewrite, prewriteTs, prewriteHisId := false, 0, 0;
      maxServedRts := 0;
      numVersions := 0;
      all := [Version(0, initial)];
      served := {};
      used := {};
      new;
      assert history[..] == [EMPTY, EMPTY, EMPTY, EMPTY];
      assert requests[..] == [NO_REQ, NO_REQ, NO_REQ, NO_REQ];
      InitInv(initial, threads);
    }

    // -------------------------------------------------------------- scans

    /** The scan of the slots in access: the one read at `ts`, -1 for none. */
    method Find(ts: nat) returns (i: int)
      ensures i == Scan(history[..], ts)
    {
      i := -1;
      var bestTs := 0;
      for k := 0 to history.Length
        invariant i == Scan(history[..k], ts)
        invariant bestTs == if i < 0 then 0 else history[i].ts % TWO32
      {
        assert history[..k + 1][..k] == history[..k];
        if history[k].valid && history[k].ts < ts && history[k].ts > bestTs {
          bestTs := history[k].ts % TWO32;
          i := k;
        }
      }
      assert history[..history.Length] == history[..];
    }

    /** The first scan of reserveRow: the newest slot below `limit`, -1 for none. */
    method FindBelow(limit: nat) returns (i: int)
      ensures i == BestBelow(history[..], limit)
    {
      i := -1;
      var bestTs := 0;
      for k := 0 to history.Length
        invariant i == BestBelow(history[..k], limit)
        invariant bestTs == if i < 0 then 0 else history[i].ts
      {
        assert history[..k + 1][..k] == history[..k];
        if history[k].valid && history[k].ts < limit && history[k].ts > bestTs {
          bestTs := history[k].ts;
          i := k;
        }
      }
      assert history[..history.Length] == history[..];
    }

    /** The scan for the victim of a forced eviction, -1 for none. */
    method FindOldest() returns (i: int)
      ensures i == Oldest(history[..])
    {
      i := -1;
      var bestTs := UINT64_MAX;
      for k := 0 to history.Length
        invariant i == Oldest(history[..k])
        invariant bestTs == if i < 0 then UINT64_MAX else history[i].ts
      {
        assert history[..k + 1][..k] == history[..k];
        if history[k].valid && history[k].ts < bestTs {
          bestTs := history[k].ts;
          i := k;
        }
      }
      assert history[..history.Length] == history[..];
    }

    /** The scan for an unused slot, stopping at the first that has a buffer, -1 for none. */
    method FindFree() returns (i: int)
      ensures i == Choose(history[..])
    {
      i := -1;
      var k := 0;
      while k < history.Length && !(i >= 0 && history[i].row.At?)
        invariant k <= history.Length
        invariant i == Choose(history[..k])
      {
        assert history[..k + 1][..k] == history[..k];
        if !history[k].valid && !history[k].reserved { i := k; }
        k := k + 1;
      }
      ChooseStops(history[..], k);
      assert history[..history.Length] == history[..];
    }

    // -------------------------------------------------------------- reserveRow

    /** Every version up to `maxTs` leaves the slots. */
    method RecycleUpTo(maxTs: nat)
      requires numVersions == CountValid(history[..])
      modifies this`numVersions, history
      ensures history[..] == Recycle(old(history[..]), maxTs)
      ensures numVersions == CountValid(history[..])
    {
      ghost var h := history[..];
      for k := 0 to history.Length
        modifies this`numVersions, history
        invariant forall j :: 0 <= j < history.Length ==>
                    history[j] == if j < k then Recycle(h, maxTs)[j] else h[j]
        invariant numVersions == CountValid(history[..])
      {
        ghost var before := history[..];
        if history[k].valid && history[k].ts <= maxTs {
          CountUpdate(before, k, before[k].(valid := false, reserved := false));
          history[k] := history[k].(valid := false, reserved := false);
          assert history[..] == before[k := before[k].(valid := false, reserved := false)];
          numVersions := numVersions - 1;
        }
      }
    }

    /** The garbage collection at the start of reserveRow. */
    method CollectGarbage(minTs: nat)
      requires numVersions == CountValid(history[..]) && Buffered(history[..])
      modifies this`row, this`oldestWts, this`numVersions, history
      ensures Model() == Collect(old(Model()), minTs)
    {
      hide CountValid, BestBelow;
      ghost var m := Model();
      if oldestWts < minTs && numVersions == history.Length {
        var i := FindBelow(minTs);
        if i >= 0 {
          var maxTs, temp := history[i].ts, row;
          row := history[i].row.addr;
          CountUpdate(history[..], i, history[i].(row := At(temp)));
          history[i] := history[i].(row := At(temp));
          oldestWts := maxTs;
          assert history[..] == m.slots[i := m.slots[i].(row := At(m.base))];
          RecycleUpTo(maxTs);
        }
      }
    }

    /** double_list(0) */
    method DoubleHistory()
      modifies this`history
      ensures fresh(history)
      ensures Model() == Double(old(Model()))
    {
      var temp := new Slot[2 * history.Length](_ => EMPTY);
      for i := 0 to history.Length
        modifies temp
        invariant forall k :: 0 <= k < temp.Length ==> temp[k] == if k < i then history[k] else EMPTY
      {
        temp[i] := history[i];
      }
      history := temp;
      assert history[..] == old(history[..]) + seq(old(history.Length), _ => EMPTY);
    }

    /** The forced eviction of the oldest version. */
    method EvictOldest() returns (idx: nat)
      requires Oldest(history[..]) >= 0 && Buffered(history[..]) && numVersions > 0
      modifies this`row, this`oldestWts, this`numVersions, history
      ensures Model() == Evict(old(Model())) && idx == Oldest(old(history[..]))
    {
      hide Oldest;
      ghost var h := history[..];
      idx := FindOldest();
      var temp := row;
      row := history[idx].row.addr;
      oldestWts := history[idx].ts;
      history[idx] := Slot(false, false, history[idx].ts, At(temp));
      numVersions := numVersions - 1;
      assert history[..] == h[idx := history[idx]];
    }

    /** The first part of reserveRow: collect, then find a free slot, evict or double. */
    method MakeRoom(minTs: nat) returns (idx: nat)
      requires numVersions == CountValid(history[..]) && Buffered(history[..])
      requires Room(Model(), minTs).1 >= 0
      modifies this`row, this`oldestWts, this`numVersions, this`history, history
      ensures history == old(history) || fresh(history)
      ensures (Model(), idx) == Room(old(Model()), minTs)
    {
      CollectGarbage(minTs);
      if numVersions < history.Length {
        var i := FindFree();
        idx := i;
      } else if history.Length >= threadCnt {
        idx := EvictOldest();
      } else {
        idx := history.Length;
        DoubleHistory();
      }
    }

    /** reserveRow: make room, reserve a slot and copy the latest version into its buffer. */
    method ReserveRow(ts: nat, minTs: nat) returns (buf: nat)
      requires StoreOk(Model()) && !existsPrewrite && history.Length > 1
      modifies this`row, this`oldestWts, this`numVersions, this`history, this`mem
      modifies this`existsPrewrite, this`prewriteTs, this`prewriteHisId, history
      ensures history == old(history) || fresh(history)
      ensures Model() == Promote(old(Model()), ts, minTs).0 && buf == Promote(old(Model()), ts, minTs).1
      ensures MadeRoom(old(Model()), Model(), minTs)
      ensures Model().pending && Model().preTs == ts && buf < |mem| && old(Model()).all != [] && mem[buf] == Last(old(Model()).all).value
    {
      hide MadeRoom;
      PromoteMakesRoom(Model(), ts, minTs);
      RoomKeeps(Model(), minTs);
      StoreBuffered(Model());
      var idx := MakeRoom(minTs);
      assert SlotOk(Model(), idx);
      buf := PlaceAt(idx, ts);
    }

    method PlaceAt(idx: nat, ts: nat) returns (buf: nat)
      requires idx < history.Length && latestRow < |mem|
      requires history[idx].row.At? ==> history[idx].row.addr < |mem|
      modifies this`mem, this`existsPrewrite, this`prewriteTs, this`prewriteHisId, history
      ensures Model() == Place(old(Model()), idx, ts) && At(buf) == history[idx].row
    {
      ghost var h := history[..];
      var latest := mem[latestRow];
      if history[idx].row.Null? {
        buf := |mem|;
        mem := mem + [latest];
      } else {
        buf := history[idx].row.addr;
        mem := mem[buf := latest];
      }
      history[idx] := Slot(false, true, ts, At(buf));
      existsPrewrite, prewriteHisId, prewriteTs := true, idx, ts;
      assert history[..] == h[idx := Slot(false, true, ts, At(buf))];
    }

    // -------------------------------------------------------------- the request buffer

    method FindFreeRequest() returns (i: nat)
      ensures i == FirstFree(requests[..])
    {
      i := 0;
      while i < requests.Length && requests[i].valid
        invariant i <= requests.Length
        invariant forall k :: 0 <= k < i ==> requests[k].valid
      {
        i := i + 1;
      }
      FreeIs(requests[..], i);
    }

    /** double_list(1) */
    method DoubleRequests()
      modifies this`requests
      ensures fresh(requests) && requests[..] == old(requests[..]) + seq(old(requests.Length), _ => NO_REQ)
    {
      var temp := new Req[2 * requests.Length](_ => NO_REQ);
      for i := 0 to requests.Length
        modifies temp
        invariant forall k :: 0 <= k < temp.Length ==> temp[k] == if k < i then requests[k] else NO_REQ
      {
        temp[i] := requests[i];
      }
      requests := temp;
    }

    /** buffer_req */
    method BufferReq(kind: Kind, ts: nat, txn: nat)
      requires requests.Length > 0
      modifies this`requests, requests
      ensures requests == old(requests) || fresh(requests)
      ensures requests[..] == Enqueue(old(requests[..]), Req(true, kind, ts, txn))
    {
      ghost var before := requests[..];
      var i := FindFreeRequest();
      if i == requests.Length {
        DoubleRequests();
        i := FindFreeRequest();
        PadFree(before, seq(|before|, _ => NO_REQ));
      }
      ghost var padded := requests[..];
      requests[i] := Req(true, kind, ts, txn);
      assert requests[..] == padded[i := Req(true, kind, ts, txn)];
    }

    /** The first scan of update_buffer: the next pending write after `ts`. */
    method FindNextPre(ts: nat) returns (next: nat)
      ensures next == NextPre(requests[..], ts)
    {
      next := UINT64_MAX;
      for k := 0 to requests.Length
        invariant next == NextPre(requests[..k], ts)
      {
        assert requests[..k + 1][..k] == requests[..k];
        if requests[k].valid && requests[k].kind == P && requests[k].ts > ts && requests[k].ts < next {
          next := requests[k].ts;
        }
      }
      assert requests[..requests.Length] == requests[..];
    }

    /** One iteration of update_buffer. */
    method AnswerOne(i: nat, next: nat, minTs: nat) returns (ws: seq<Wakeup>)
      requires i < requests.Length && (requests[i].valid ==> requests[i].ts > 0) && all != []
      requires requests[i].valid && requests[i].ts == next && !(requests[i].kind == R && requests[i].ts < next) ==>
                 StoreOk(Model()) && !existsPrewrite && history.Length > 1
      modifies this, history, requests
      ensures requests == old(requests) && (history == old(history) || fresh(history))
      ensures (Model(), ws) == WakeOne(old(Model()), i, next, minTs)
    {
      hide StoreOk, Promote, Newer;
      ghost var q := requests[..];
      ws := [];
      if requests[i].valid && requests[i].kind == R && requests[i].ts < next {
        if requests[i].ts > maxServedRts { maxServedRts := requests[i].ts; }
        served := served + {Served(requests[i].ts, Newer(all, requests[i].ts - 1), latestRow)};
        ws := [Wakeup(requests[i], latestRow)];
        requests[i] := requests[i].(valid := false);
        assert requests[..] == q[i := q[i].(valid := false)];
      } else if requests[i].valid && requests[i].ts == next {
        var buf := ReserveRow(requests[i].ts, minTs);
        ws := [Wakeup(requests[i], buf)];
        requests[i] := requests[i].(valid := false);
        assert requests[..] == q[i := q[i].(valid := false)];
      }
    }

    /** update_buffer, after the transaction at `ts` has finished. */
    method UpdateBuffer(ts: nat, minTs: nat) returns (ws: seq<Wakeup>)
      requires Finished(Model(), ts)
      modifies this, history, requests
      ensures requests == old(requests) && (history == old(history) || fresh(history))
      ensures (Model(), ws) == Update(old(Model()), ts, minTs)
    {
      hide LoopInv, Finished, Wake, WakeOne, NextPre;
      ghost var m := Model();
      var next := FindNextPre(ts);
      ws := [];
      LoopStarts(m, ts);
      WakeStarts(m, next, minTs);
      var k := 0;
      while k < requests.Length
        invariant k <= requests.Length && requests == old(requests)
        invariant history == old(history) || fresh(history)
        invariant (Model(), ws) == Wake(m, next, minTs, k)
        invariant LoopInv(Model(), ws, m, ts, next, k)
      {
        CanAnswer(Model(), ws, m, ts, k);
        LoopStep(Model(), ws, m, ts, minTs, k);
        WakeNext(m, next, minTs, k);
        var more := AnswerOne(k, next, minTs);
        ws := ws + more;
        k := k + 1;
      }
    }

    // -------------------------------------------------------------- access

    /** access, R_REQ, for the latest version: it waits for an older pending write. */
    method ReadLatestRow(ts: nat, txn: nat) returns (code: Code, cur: nat)
      requires Inv(Model()) && FreshTs(Model(), ts) && oldestWts <= ts && latestWts < ts
      modifies this`requests, this`maxServedRts, this`served, this`used, requests
      ensures requests == old(requests) || fresh(requests)
      ensures (Model(), code, cur) == Mvcc.Read(old(Model()), ts, txn)
    {
      hide PendingOk, ReadsOk, UsedOk, OldRow, Enqueue, SlotOk, Finds, Holds, Newer, Candidate;
      cur := row;
      if existsPrewrite && prewriteTs < ts {
        code := Wait;
        BufferReq(R, ts, txn);
      } else {
        code := Ok;
        cur := latestRow;
        if ts > maxServedRts { maxServedRts := ts; }
        served := served + {Served(ts, Newer(all, ts - 1), latestRow)};
      }
      used := used + {ts};
    }

    /** access, R_REQ. */
    method ReadRow(ts: nat, txn: nat) returns (code: Code, cur: nat)
      requires Inv(Model()) && FreshTs(Model(), ts)
      modifies this`requests, this`maxServedRts, this`served, this`used, requests
      ensures requests == old(requests) || fresh(requests)
      ensures (Model(), code, cur) == Mvcc.Read(old(Model()), ts, txn)
    {
      hide PendingOk, ReadsOk, UsedOk, OldRow, Enqueue, SlotOk, Finds, Holds, Newer, Candidate;
      ghost var m := Model();
      if ts >= oldestWts && ts > latestWts {
        code, cur := ReadLatestRow(ts, txn);
        return;
      }
      if ts < oldestWts {
        code := Abort;
        cur := row;
      } else {
        code := Ok;
        StoreBuffered(m);
        cur := FindOld(ts);
        if Finds(m.slots, ts) { served := served + {Served(ts, Newer(all, ts - 1), cur)}; }
      }
      used := used + {ts};
    }

    method FindOld(ts: nat) returns (cur: nat)
      requires Buffered(history[..])
      ensures cur == OldRow(Model(), ts)
    {
      var i := Find(ts);
      if i < 0 { cur := row; } else { cur := history[i].row.addr; }
    }

    /** access, P_REQ. */
    method PrewriteRow(ts: nat, txn: nat, minTs: nat) returns (code: Code, buf: nat)
      requires Inv(Model()) && FreshTs(Model(), ts)
      modifies this, history, requests
      ensures requests == old(requests) || fresh(requests)
      ensures history == old(history) || fresh(history)
      ensures (Model(), code, buf) == Prewrite(old(Model()), ts, txn, minTs)
    {
      ghost var m := Model();
      buf := row;
      if ts < latestWts || ts < maxServedRts || (existsPrewrite && prewriteTs > ts) {
        code := Abort;
        used := used + {ts};
      } else if existsPrewrite {
        code := Wait;
        BufferReq(P, ts, txn);
        used := used + {ts};
      } else {
        code := Ok;
        UseKeeps(m, ts);
        used := used + {ts};
        buf := ReserveRow(ts, minTs);
      }
    }

    /** The transaction that holds the reservation changes its buffer. */
    method FillBuffer(v: Val)
      requires Inv(Model()) && existsPrewrite
      modifies this`mem
      ensures HasBuffer(old(Model())) && Model() == Fill(old(Model()), v) && Inv(Model())
    {
      FillKeeps(Model(), v);
      mem := mem[history[prewriteHisId].row.addr := v];
    }

    /** access, W_REQ: the transaction that holds the reservation commits its buffer. */
    method Write(minTs: nat) returns (ws: seq<Wakeup>)
      requires Inv(Model()) && existsPrewrite
      modifies this, history, requests
      ensures requests == old(requests) && (history == old(history) || fresh(history))
      ensures HasBuffer(old(Model())) && (Model(), ws) == Update(Install(old(Model())), old(prewriteTs), minTs)
      ensures Inv(Model())
    {
      hide StoreOk, ReadsOk, UsedOk, NextPre, Wake;
      ghost var m := Model();
      InstallKeeps(m);
      UpdateKeeps(Install(m), m.preTs, minTs);
      var ts := prewriteTs;
      InstallBuffer();
      ws := UpdateBuffer(ts, minTs);
    }

    method InstallBuffer()
      requires HasBuffer(Model())
      modifies this`latestWts, this`latestRow, this`existsPrewrite, this`numVersions, this`all, history
      ensures HasBuffer(old(Model())) && Model() == Install(old(Model()))
    {
      ghost var h := history[..];
      var e := history[prewriteHisId];
      history[prewriteHisId] := Slot(true, e.reserved, prewriteTs, e.row);
      latestWts := prewriteTs;
      latestRow := e.row.addr;
      existsPrewrite := false;
      numVersions := numVersions + 1;
      all := all + [Version(prewriteTs, mem[e.row.addr])];
      assert history[..] == h[prewriteHisId := Slot(true, e.reserved, prewriteTs, e.row)];
    }

    /** access, XP_REQ: the transaction that holds the reservation aborts. */
    method Cancel(minTs: nat) returns (ws: seq<Wakeup>)
      requires Inv(Model()) && existsPrewrite
      modifies this, history, requests
      ensures requests == old(requests) && (history == old(history) || fresh(history))
      ensures HasBuffer(old(Model())) && (Model(), ws) == Update(Drop(old(Model())), old(prewriteTs), minTs)
      ensures Inv(Model())
    {
      hide StoreOk, ReadsOk, UsedOk, NextPre, Wake;
      ghost var m := Model();
      InstallKeeps(m);
      DropKeeps(m);
      UpdateKeeps(Drop(m), m.preTs, minTs);
      var e := history[prewriteHisId];
      history[prewriteHisId] := e.(valid := false, reserved := false);
      existsPrewrite := false;
      assert history[..] == m.slots[m.preId := e.(valid := false, reserved := false)];
      ws := UpdateBuffer(prewriteTs, minTs);
    }
  }

  /** In the loop of update_buffer, a write is promoted only while none is pending. */
  lemma CanAnswer(c: Row, ws: seq<Wakeup>, r: Row, ts: nat, i: nat)
    requires Finished(r, ts) && i < |r.reqs| && LoopInv(c, ws, r, ts, NextPre(r.reqs, ts), i)
    ensures c.all != [] && |c.reqs| == |r.reqs| && StoreOk(c) && |c.slots| > 1 && (c.reqs[i].valid ==> c.reqs[i].ts > 0)
    ensures c.reqs[i].valid && c.reqs[i].ts == NextPre(r.reqs, ts) ==> !c.pending
  {
    hide StoreOk, PendingOk, ReadsOk, UsedOk, NextPre;
    HasLatest(c);
    if r.reqs[i].valid && r.reqs[i].ts == NextPre(r.reqs, ts) { NextIsWrite(r, ts, i); }
  }

  lemma {:induction false} FreeIs(q: seq<Req>, i: nat)
    requires i <= |q| && (forall k :: 0 <= k < i ==> q[k].valid) && (i < |q| ==> !q[i].valid)
    ensures FirstFree(q) == i
  {
  }

  lemma PadFree(q: seq<Req>, pad: seq<Req>)
    requires pad != [] && FirstFree(q) == |q| && !pad[0].valid
    ensures FirstFree(q + pad) == |q|
  {
    FreeIs(q + pad, |q|);
  }

  /** Every stored version has a buffer. */
  ghost predicate Buffered(h: seq<Slot>) {
    forall i :: 0 <= i < |h| && h[i].valid ==> h[i].row.At?
  }

  lemma StoreBuffered(r: Row)
    requires StoreOk(r)
    ensures Buffered(r.slots)
  {
    forall i | 0 <= i < |r.slots| && r.slots[i].valid ensures r.slots[i].row.At? { assert SlotOk(r, i); }
  }

  lemma {:induction false} ChooseStops(h: seq<Slot>, k: nat)
    requires k <= |h| && (k == |h| || (Choose(h[..k]) >= 0 && h[Choose(h[..k])].row.At?))
    ensures Choose(h) == Choose(h[..k])
    decreases |h|
  {
    if k == |h| {
      assert h[..k] == h;
    } else {
      assert h[..|h| - 1][..k] == h[..k];
      ChooseStops(h[..|h| - 1], k);
    }
  }
}
