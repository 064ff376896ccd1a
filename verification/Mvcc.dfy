/** Multi-version timestamp ordering on one row: what each request does to the row, and
    what the row promises over any sequence of requests. */
module Mvcc {
  import opened Serial
  import opened Versions
  import opened MvccHistory

  const UINT64_MAX: nat := 0xFFFF_FFFF_FFFF_FFFF

  datatype Kind = R | P

  /** An entry of the request buffer. */
  datatype Req = Req(valid: bool, kind: Kind, ts: nat, txn: nat)

  datatype Code = Ok | Wait | Abort

  /** A read that was served: its timestamp, the version chosen for it and the buffer handed
      out, through which the transaction reads until it ends. */
  datatype Served = Served(ts: nat, version: Version, buf: nat)

  /** The row as the source keeps it, and three history variables: every version ever
      committed, every read ever served and every timestamp ever seen. */
  datatype Row = Row(
    base: nat, latestRow: nat, latestWts: nat, oldestWts: nat,
    slots: seq<Slot>, numVersions: nat,
    pending: bool, preTs: nat, preId: nat, maxServed: nat,
    reqs: seq<Req>, mem: seq<Val>, threads: nat,
    all: seq<Version>, served: set<Served>, used: set<nat>)

  function Newer(h: seq<Version>, at: nat): Version
    requires h != []
  {
    h[IndexAt(h, at)]
  }

  // ---------------------------------------------------------------- reservation

  /** The newest valid slot below `limit`, -1 for none. */
  function BestBelow(h: seq<Slot>, limit: nat): (i: int)
    ensures -1 <= i < |h|
    ensures i >= 0 ==> h[i].valid && 0 < h[i].ts < limit
    ensures forall j :: 0 <= j < |h| && h[j].valid && 0 < h[j].ts < limit ==> i >= 0 && h[j].ts <= h[i].ts
  {
    if h == [] then -1
    else
      var n := |h| - 1;
      var best := BestBelow(h[..n], limit);
      var bestTs := if best < 0 then 0 else h[best].ts;
      if h[n].valid && h[n].ts < limit && h[n].ts > bestTs then n else best
  }

  /** The oldest valid slot, -1 for none. */
  function Oldest(h: seq<Slot>): (i: int)
    ensures -1 <= i < |h|
    ensures i >= 0 ==> h[i].valid && h[i].ts < UINT64_MAX
    ensures forall j :: 0 <= j < |h| && h[j].valid && h[j].ts < UINT64_MAX ==> i >= 0 && h[i].ts <= h[j].ts
  {
    if h == [] then -1
    else
      var n := |h| - 1;
      var best := Oldest(h[..n]);
      var bestTs := if best < 0 then UINT64_MAX else h[best].ts;
      if h[n].valid && h[n].ts < bestTs then n else best
  }

  predicate Free(e: Slot) { !e.valid && !e.reserved }

  /** The slot chosen for a reservation: the first free one that has a buffer already, else
      the last free one, -1 for none. */
  function Choose(h: seq<Slot>): (i: int)
    ensures -1 <= i < |h|
    ensures i >= 0 ==> Free(h[i])
    ensures (exists j :: 0 <= j < |h| && Free(h[j])) ==> i >= 0
    ensures i >= 0 && h[i].row.At? ==> forall j :: 0 <= j < i && Free(h[j]) ==> h[j].row.Null?
    ensures i >= 0 && h[i].row.Null? ==> forall j :: 0 <= j < |h| && Free(h[j]) ==> j <= i && h[j].row.Null?
  {
    if h == [] then -1
    else
      var n := |h| - 1;
      var i := Choose(h[..n]);
      if i >= 0 && h[i].row.At? then i else if Free(h[n]) then n else i
  }

  /** Every version up to `ts` leaves the slots; their buffers stay. */
  function Recycle(h: seq<Slot>, ts: nat): (g: seq<Slot>)
    ensures |g| == |h|
    ensures forall i :: 0 <= i < |h| ==>
              g[i] == if h[i].valid && h[i].ts <= ts then h[i].(valid := false, reserved := false) else h[i]
  {
    seq(|h|, i requires 0 <= i < |h| =>
      if h[i].valid && h[i].ts <= ts then h[i].(valid := false, reserved := false) else h[i])
  }

  /** Garbage collection at the start of reserveRow: when the slots are full, the versions no
      transaction can ask for any more go, the newest of them to `base`. */
  function Collect(r: Row, minTs: nat): Row {
    var i := BestBelow(r.slots, minTs);
    if r.oldestWts < minTs && r.numVersions == |r.slots| && i >= 0 && r.slots[i].row.At? then
      var h := r.slots[i := r.slots[i].(row := At(r.base))];
      var g := Recycle(h, r.slots[i].ts);
      r.(base := r.slots[i].row.addr, slots := g, oldestWts := r.slots[i].ts, numVersions := CountValid(g))
    else r
  }

  /** Forced eviction: the oldest version in the slots replaces `base`, whatever its age. */
  function Evict(r: Row): Row {
    var i := Oldest(r.slots);
    if i >= 0 && r.slots[i].row.At? && r.numVersions > 0 then
      r.(base := r.slots[i].row.addr, oldestWts := r.slots[i].ts, numVersions := r.numVersions - 1,
         slots := r.slots[i := Slot(false, false, r.slots[i].ts, At(r.base))])
    else r
  }

  /** double_list(0) */
  function Double(r: Row): Row {
    r.(slots := r.slots + seq(|r.slots|, _ => EMPTY))
  }

  /** Make room and say where: collect, then take a free slot, or evict, or double. */
  function Room(r: Row, minTs: nat): (w: (Row, int))
    ensures w.0.all == r.all && w.0.reqs == r.reqs && w.0.served == r.served
  {
    var c := Collect(r, minTs);
    if c.numVersions < |c.slots| then (c, Choose(c.slots))
    else if |c.slots| >= c.threads then (Evict(c), Oldest(c.slots))
    else (Double(c), |c.slots|)
  }

  /** Reserve slot `i` for a pending write at `ts`, with a copy of the latest version. */
  function Place(r: Row, i: nat, ts: nat): Row
    requires i < |r.slots| && r.latestRow < |r.mem|
    requires r.slots[i].row.At? ==> r.slots[i].row.addr < |r.mem|
  {
    var blank := r.slots[i].row.Null?;
    var addr := if blank then |r.mem| else r.slots[i].row.addr;
    var latest := r.mem[r.latestRow];
    r.(slots := r.slots[i := Slot(false, true, ts, At(addr))],
       mem := if blank then r.mem + [latest] else r.mem[addr := latest],
       pending := true, preTs := ts, preId := i)
  }

  // ---------------------------------------------------------------- the row invariant

  ghost predicate Stored(h: seq<Slot>, ts: nat) {
    exists i :: 0 <= i < |h| && h[i].valid && h[i].ts == ts
  }

  /** The buffer `buf` is where the version of `v` is stored: in a slot, or as the base. */
  ghost predicate Holds(h: seq<Slot>, oldestWts: nat, base: nat, v: nat, buf: nat) {
    (v == oldestWts && buf == base) || exists i :: 0 <= i < |h| && h[i].valid && h[i].ts == v && h[i].row == At(buf)
  }

  ghost predicate NoAlias(h: seq<Slot>) {
    && (forall i, j :: 0 <= i < j < |h| && h[i].row.At? ==> h[i].row != h[j].row)
    && (forall i, j :: 0 <= i < j < |h| && h[i].valid && h[j].valid ==> h[i].ts != h[j].ts)
  }

  ghost predicate SlotOk(r: Row, i: int)
    requires 0 <= i < |r.slots| && r.all != []
  {
    var e := r.slots[i];
    && (e.row.At? ==> e.row.addr < |r.mem| && e.row.addr != r.base)
    && (e.valid ==>
          && e.reserved && e.row.At?
          && r.oldestWts < e.ts < UINT64_MAX && Newer(r.all, e.ts).ts == e.ts
          && r.mem[e.row.addr] == ValueAt(r.all, e.ts)
          && (e.ts == r.latestWts <==> e.row.addr == r.latestRow))
    && (!e.valid && e.row.At? ==> e.row.addr != r.latestRow)
    && (!e.valid && e.reserved ==> r.pending && i == r.preId)
  }

  /** The slots store exactly the versions newer than `oldestWts`, `base` stores that one, and
      no buffer serves two purposes. */
  ghost predicate StoreOk(r: Row) {
    && Ascending(r.all)
    && r.slots != []
    && r.latestWts == Last(r.all).ts
    && r.oldestWts <= r.latestWts
    && r.base < |r.mem| && r.latestRow < |r.mem|
    && Newer(r.all, r.oldestWts).ts == r.oldestWts
    && r.mem[r.base] == ValueAt(r.all, r.oldestWts)
    && r.mem[r.latestRow] == Last(r.all).value
    && (r.oldestWts == r.latestWts ==> r.latestRow == r.base)
    && r.numVersions == CountValid(r.slots)
    && (forall i :: 0 <= i < |r.slots| ==> SlotOk(r, i))
    && (forall k :: 0 <= k < |r.all| && r.all[k].ts > r.oldestWts ==> Stored(r.slots, r.all[k].ts))
    && NoAlias(r.slots)
  }

  /** At most one write is pending; it is newer than every version and every served read. */
  ghost predicate PendingOk(r: Row) {
    r.pending ==>
      && r.preId < |r.slots|
      && !r.slots[r.preId].valid && r.slots[r.preId].reserved && r.slots[r.preId].row.At?
      && r.slots[r.preId].ts == r.preTs
      && r.latestWts < r.preTs < UINT64_MAX && r.maxServed < r.preTs && r.preTs in r.used
  }

  /** The situation in which something is collected. */
  ghost predicate Full(r: Row, minTs: nat, i: int) {
    && StoreOk(r) && !r.pending && r.numVersions == |r.slots|
    && 0 <= i < |r.slots| && i == BestBelow(r.slots, minTs) && r.oldestWts < minTs
  }

  lemma FullFacts(r: Row, minTs: nat, i: int)
    requires Full(r, minTs, i)
    ensures r.slots[i].row.At? && r.slots[i].row.addr < |r.mem|
    ensures forall j :: 0 <= j < |r.slots| ==> r.slots[j].valid && r.slots[j].row.At?
    ensures forall j :: 0 <= j < |r.slots| && j != i ==> r.slots[j].row != r.slots[i].row && r.slots[j].ts != r.slots[i].ts
    ensures r.slots[i].ts <= r.latestWts
    ensures r.slots[i].ts == r.latestWts <==> r.slots[i].row.addr == r.latestRow
    ensures r.latestRow != r.base
  {
    forall j | 0 <= j < |r.slots| ensures r.slots[j].valid && SlotOk(r, j) {}
    forall j | 0 <= j < |r.slots| && j != i ensures r.slots[j].row != r.slots[i].row && r.slots[j].ts != r.slots[i].ts {
      if j < i { assert r.slots[j].row != r.slots[i].row; } else { assert r.slots[i].row != r.slots[j].row; }
    }
    assert Stored(r.slots, r.latestWts);
  }

  lemma CollectSlot(r: Row, minTs: nat, i: int, j: int)
    requires Full(r, minTs, i) && 0 <= j < |r.slots|
    ensures SlotOk(Collect(r, minTs), j)
  {
    FullFacts(r, minTs, i);
    assert SlotOk(r, j) && SlotOk(r, i);
    var m :| 0 <= m < |r.slots| && r.slots[m].valid && r.slots[m].ts == r.latestWts;
    assert SlotOk(r, m);
  }

  lemma CollectStored(r: Row, minTs: nat, i: int, k: int)
    requires Full(r, minTs, i) && 0 <= k < |r.all| && r.all[k].ts > r.slots[i].ts
    ensures Stored(Collect(r, minTs).slots, r.all[k].ts)
  {
    FullFacts(r, minTs, i);
    assert SlotOk(r, i);
    assert Stored(r.slots, r.all[k].ts);
    var j :| 0 <= j < |r.slots| && r.slots[j].valid && r.slots[j].ts == r.all[k].ts;
    var c := Collect(r, minTs);
    assert c.slots[j].valid && c.slots[j].ts == c.all[k].ts;
  }

  lemma CollectAlias(r: Row, minTs: nat, i: int)
    requires Full(r, minTs, i)
    ensures NoAlias(Collect(r, minTs).slots)
  {
    FullFacts(r, minTs, i);
    var c := Collect(r, minTs);
    forall j | 0 <= j < |c.slots| ensures c.slots[j].row == if j == i then At(r.base) else r.slots[j].row {}
    forall j | 0 <= j < |c.slots| ensures r.slots[j].row != At(r.base) { assert SlotOk(r, j); }
    forall a, b | 0 <= a < b < |c.slots| ensures c.slots[a].row != c.slots[b].row {
      assert r.slots[a].row != r.slots[b].row;
    }
  }

  /** Garbage collection keeps the row right and forgets only versions below `minTs`. */
  lemma CollectKeeps(r: Row, minTs: nat)
    requires StoreOk(r) && !r.pending
    ensures var c := Collect(r, minTs);
      && StoreOk(c) && !c.pending
      && c == r.(base := c.base, slots := c.slots, oldestWts := c.oldestWts, numVersions := c.numVersions)
      && |c.slots| == |r.slots|
      && (c.oldestWts != r.oldestWts ==> r.oldestWts < c.oldestWts < minTs)
  {
    var i := BestBelow(r.slots, minTs);
    var c := Collect(r, minTs);
    if Full(r, minTs, i) {
      FullFacts(r, minTs, i);
      assert SlotOk(r, i);
      forall j | 0 <= j < |c.slots| ensures SlotOk(c, j) { CollectSlot(r, minTs, i, j); }
      forall k | 0 <= k < |c.all| && c.all[k].ts > c.oldestWts ensures Stored(c.slots, c.all[k].ts) {
        CollectStored(r, minTs, i, k);
      }
      CollectAlias(r, minTs, i);
    } else {
      assert c == r;
    }
  }

  lemma EvictSlot(r: Row, i: int, j: int)
    requires StoreOk(r) && !r.pending && i == Oldest(r.slots) && i >= 0 && 0 <= j < |r.slots|
    requires forall m :: 0 <= m < |r.slots| ==> r.slots[m].valid
    requires |r.slots| > 1
    ensures SlotOk(Evict(r), j)
  {
    assert SlotOk(r, j) && SlotOk(r, i);
    assert Newer(r.all, r.slots[j].ts).ts <= r.latestWts;
    var o := if i == 0 then 1 else 0;
    assert SlotOk(r, o) && r.slots[o].ts > r.slots[i].ts by {
      if i == 0 { assert r.slots[i].ts != r.slots[o].ts; } else { assert r.slots[o].ts != r.slots[i].ts; }
    }
    if j != i {
      if j < i { assert r.slots[j].row != r.slots[i].row; } else { assert r.slots[i].row != r.slots[j].row; }
    }
    assert Stored(r.slots, r.latestWts);
    var m :| 0 <= m < |r.slots| && r.slots[m].valid && r.slots[m].ts == r.latestWts;
    assert SlotOk(r, m);
  }

  lemma EvictStored(r: Row, k: int)
    requires StoreOk(r) && Oldest(r.slots) >= 0 && r.slots[Oldest(r.slots)].row.At? && r.numVersions > 0
    requires 0 <= k < |r.all| && r.all[k].ts > r.slots[Oldest(r.slots)].ts
    ensures Stored(Evict(r).slots, r.all[k].ts)
  {
    assert SlotOk(r, Oldest(r.slots));
    assert Stored(r.slots, r.all[k].ts);
    var j :| 0 <= j < |r.slots| && r.slots[j].valid && r.slots[j].ts == r.all[k].ts;
    assert Evict(r).slots[j].valid && Evict(r).slots[j].ts == r.all[k].ts;
  }

  /** Forced eviction keeps the row right: it forgets exactly the oldest stored version. */
  lemma EvictKeeps(r: Row)
    requires StoreOk(r) && !r.pending && r.numVersions == |r.slots| > 1
    ensures var c := Evict(r);
      && StoreOk(c) && !c.pending && Oldest(r.slots) >= 0 && Free(c.slots[Oldest(r.slots)])
      && c == r.(base := c.base, slots := c.slots, oldestWts := c.oldestWts, numVersions := c.numVersions)
      && r.oldestWts < c.oldestWts < c.latestWts
  {
    hide Ascending, Newer, NoAlias, PendingOk;
    var i, c := Oldest(r.slots), Evict(r);
    assert SlotOk(r, 0) && r.slots[0].valid;
    assert i >= 0 && SlotOk(r, i);
    CountUpdate(r.slots, i, c.slots[i]);
    EvictAge(r, i);
    assert forall j :: 0 <= j < |c.slots| ==> SlotOk(c, j) by {
      forall j | 0 <= j < |c.slots| ensures SlotOk(c, j) { EvictSlot(r, i, j); }
    }
    assert forall k :: 0 <= k < |c.all| && c.all[k].ts > c.oldestWts ==> Stored(c.slots, c.all[k].ts) by {
      forall k | 0 <= k < |c.all| && c.all[k].ts > c.oldestWts ensures Stored(c.slots, c.all[k].ts) {
        EvictStored(r, k);
      }
    }
    EvictAlias(r, i);
  }

  lemma EvictAge(r: Row, i: int)
    requires StoreOk(r) && !r.pending && i == Oldest(r.slots) && i >= 0
    requires forall m :: 0 <= m < |r.slots| ==> r.slots[m].valid
    requires |r.slots| > 1
    ensures r.oldestWts < r.slots[i].ts < r.latestWts
  {
    var o := if i == 0 then 1 else 0;
    assert SlotOk(r, i) && SlotOk(r, o);
    if i == 0 { assert r.slots[i].ts != r.slots[o].ts; } else { assert r.slots[o].ts != r.slots[i].ts; }
  }

  lemma EvictAlias(r: Row, i: int)
    requires StoreOk(r) && 0 <= i < |r.slots|
    ensures NoAlias(r.slots[i := Slot(false, false, r.slots[i].ts, At(r.base))])
  {
    var h := r.slots[i := Slot(false, false, r.slots[i].ts, At(r.base))];
    forall j | 0 <= j < |h| ensures r.slots[j].row != At(r.base) { assert SlotOk(r, j); }
    forall a, b | 0 <= a < b < |h| && h[a].row.At? ensures h[a].row != h[b].row {}
  }

  /** Doubling the slots changes nothing that is stored. */
  lemma DoubleKeeps(r: Row)
    requires StoreOk(r) && !r.pending
    ensures StoreOk(Double(r)) && Free(Double(r).slots[|r.slots|])
    ensures forall ts :: Scan(Double(r).slots, ts) == Scan(r.slots, ts)
  {
    var c := Double(r);
    CountPad(r.slots, seq(|r.slots|, _ => EMPTY));
    forall j | 0 <= j < |c.slots| ensures SlotOk(c, j) {
      if j < |r.slots| { assert SlotOk(r, j); }
    }
    forall k | 0 <= k < |c.all| && c.all[k].ts > c.oldestWts ensures Stored(c.slots, c.all[k].ts) {
      assert Stored(r.slots, r.all[k].ts);
      var j :| 0 <= j < |r.slots| && r.slots[j].valid && r.slots[j].ts == r.all[k].ts;
      assert c.slots[j].valid && c.slots[j].ts == c.all[k].ts;
    }
    forall ts ensures Scan(c.slots, ts) == Scan(r.slots, ts) { ScanPad(r.slots, seq(|r.slots|, _ => EMPTY), ts); }
  }

  lemma {:induction false} ScanPad(h: seq<Slot>, pad: seq<Slot>, ts: nat)
    requires forall i :: 0 <= i < |pad| ==> !pad[i].valid
    ensures Scan(h + pad, ts) == Scan(h, ts)
  {
    if pad == [] {
      assert h + pad == h;
    } else {
      var n := |pad| - 1;
      ScanPad(h, pad[..n], ts);
      assert (h + pad)[..|h + pad| - 1] == h + pad[..n];
    }
  }

  lemma SomeFree(r: Row)
    requires StoreOk(r) && !r.pending && r.numVersions < |r.slots|
    ensures Choose(r.slots) >= 0
  {
    var j :| 0 <= j < |r.slots| && !r.slots[j].valid;
    assert SlotOk(r, j);
    assert Free(r.slots[j]);
  }

  /** After making room there is a free slot, and nothing else about the row has changed but
      how far back it remembers. */
  lemma RoomKeeps(r: Row, minTs: nat)
    requires StoreOk(r) && !r.pending && |r.slots| > 1
    ensures var (c, i) := Room(r, minTs);
      && StoreOk(c) && !c.pending && 0 <= i < |c.slots| && Free(c.slots[i])
      && c == r.(base := c.base, slots := c.slots, oldestWts := c.oldestWts, numVersions := c.numVersions)
      && |c.slots| >= |r.slots| && r.oldestWts <= c.oldestWts
  {
    hide SlotOk, NoAlias, Ascending;
    CollectKeeps(r, minTs);
    var c := Collect(r, minTs);
    if c.numVersions < |c.slots| {
      SomeFree(c);
    } else if |c.slots| >= c.threads {
      EvictKeeps(c);
    } else {
      DoubleKeeps(c);
    }
  }

  lemma PlaceSlot(r: Row, i: nat, ts: nat, j: int)
    requires StoreOk(r) && !r.pending && i < |r.slots| && Free(r.slots[i]) && 0 <= j < |r.slots|
    requires r.slots[i].row.At? ==> r.slots[i].row.addr < |r.mem|
    ensures SlotOk(Place(r, i, ts), j)
  {
    assert SlotOk(r, j) && SlotOk(r, i);
    if j < i && r.slots[j].row.At? { assert r.slots[j].row != r.slots[i].row; }
    if i < j && r.slots[i].row.At? { assert r.slots[i].row != r.slots[j].row; }
  }

  /** The buffer reserved for a pending write holds a copy of the latest version and is the
      buffer of no version. */
  lemma PlaceKeeps(r: Row, i: nat, ts: nat)
    requires StoreOk(r) && !r.pending && i < |r.slots| && Free(r.slots[i])
    requires r.latestWts < ts < UINT64_MAX && r.maxServed < ts && ts in r.used
    ensures r.slots[i].row.At? ==> r.slots[i].row.addr < |r.mem|
    ensures var c := Place(r, i, ts);
      && StoreOk(c) && PendingOk(c) && c.pending && c.preTs == ts
      && c.slots[c.preId].row.addr < |c.mem| && c.mem[c.slots[c.preId].row.addr] == Last(c.all).value
      && c == r.(slots := c.slots, mem := c.mem, pending := true, preTs := ts, preId := i)
  {
    assert SlotOk(r, i);
    var c := Place(r, i, ts);
    forall j | 0 <= j < |c.slots| ensures SlotOk(c, j) { PlaceSlot(r, i, ts, j); }
    CountUpdate(r.slots, i, c.slots[i]);
    forall k | 0 <= k < |c.all| && c.all[k].ts > c.oldestWts ensures Stored(c.slots, c.all[k].ts) {
      assert Stored(r.slots, r.all[k].ts);
      var j :| 0 <= j < |r.slots| && r.slots[j].valid && r.slots[j].ts == r.all[k].ts;
      assert c.slots[j].valid && c.slots[j].ts == c.all[k].ts;
    }
    PlaceAlias(r, i, ts);
  }

  lemma PlaceAlias(r: Row, i: nat, ts: nat)
    requires StoreOk(r) && i < |r.slots| && SlotOk(r, i)
    ensures NoAlias(Place(r, i, ts).slots)
  {
    var h := Place(r, i, ts).slots;
    forall j | 0 <= j < |h| ensures r.slots[j].row.At? ==> r.slots[j].row.addr < |r.mem| { assert SlotOk(r, j); }
    forall a, b | 0 <= a < b < |h| && h[a].row.At? ensures h[a].row != h[b].row {}
  }

  // ---------------------------------------------------------------- the request buffer

  const NO_REQ: Req := Req(false, R, 0, 0)

  function FirstFree(q: seq<Req>): (i: nat)
    ensures i <= |q|
    ensures i < |q| ==> !q[i].valid
    ensures forall k :: 0 <= k < i ==> q[k].valid
  {
    if q == [] || !q[0].valid then 0 else 1 + FirstFree(q[1..])
  }

  /** buffer_req: the first free entry, after doubling the buffer when there is none. */
  function Enqueue(q: seq<Req>, e: Req): (r: seq<Req>)
    requires q != []
    ensures FirstFree(q) < |r|
    ensures r[FirstFree(q)] == e
    ensures forall k :: 0 <= k < |q| && k != FirstFree(q) ==> k < |r| && r[k] == q[k]
    ensures forall k :: |q| <= k < |r| && k != FirstFree(q) ==> !r[k].valid
  {
    if FirstFree(q) < |q| then q[FirstFree(q) := e]
    else (q + seq(|q|, _ => NO_REQ))[|q| := e]
  }

  /** The requests that wait. */
  function Live(q: seq<Req>): multiset<Req> {
    if q == [] then multiset{} else Live(q[..|q| - 1]) + One(q[|q| - 1])
  }

  lemma {:induction false} LiveHas(q: seq<Req>, e: Req)
    ensures e in Live(q) <==> e.valid && e in q
  {
    if q != [] {
      LiveHas(q[..|q| - 1], e);
      assert q == q[..|q| - 1] + [q[|q| - 1]];
    }
  }

  function One(e: Req): multiset<Req> { if e.valid then multiset{e} else multiset{} }

  lemma {:induction false} LiveUpdate(q: seq<Req>, i: nat, e: Req)
    requires i < |q|
    ensures Live(q[i := e]) + One(q[i]) == Live(q) + One(e)
  {
    hide One;
    var n := |q| - 1;
    if i < n {
      LiveUpdate(q[..n], i, e);
      assert q[i := e][..n] == q[..n][i := e];
      assert (Live(q[..n][i := e]) + One(q[n])) + One(q[i]) == (Live(q[..n][i := e]) + One(q[i])) + One(q[n]);
    } else {
      assert q[i := e][..n] == q[..n];
    }
  }

  lemma LiveAppend(q: seq<Req>, e: Req)
    ensures Live(q + [e]) == Live(q) + One(e)
  {
    assert (q + [e])[..|q|] == q;
  }

  lemma {:induction false} LivePad(q: seq<Req>, n: nat)
    ensures Live(q + seq(n, _ => NO_REQ)) == Live(q)
  {
    hide Live;
    if n == 0 {
      assert q + seq(n, _ => NO_REQ) == q;
    } else {
      LivePad(q, n - 1);
      var fewer := q + seq(n - 1, _ => NO_REQ);
      assert q + seq(n, _ => NO_REQ) == fewer + [NO_REQ];
      LiveAppend(fewer, NO_REQ);
    }
  }

  /** Buffering adds exactly the new request. */
  lemma EnqueueAdds(q: seq<Req>, e: Req)
    requires q != [] && e.valid
    ensures Live(Enqueue(q, e)) == Live(q) + multiset{e}
  {
    if FirstFree(q) < |q| {
      LiveUpdate(q, FirstFree(q), e);
    } else {
      LivePad(q, |q|);
      LiveUpdate(q + seq(|q|, _ => NO_REQ), |q|, e);
    }
  }

  /** The timestamp of the next pending write after `ts`, UINT64_MAX for none. */
  function NextPre(q: seq<Req>, ts: nat): (n: nat)
    ensures n <= UINT64_MAX
    ensures forall k :: 0 <= k < |q| && q[k].valid && q[k].kind == P && ts < q[k].ts < UINT64_MAX ==> n <= q[k].ts
    ensures n < UINT64_MAX ==> exists k :: 0 <= k < |q| && q[k].valid && q[k].kind == P && q[k].ts == n && ts < n
  {
    if q == [] then UINT64_MAX
    else
      var n := NextPre(q[..|q| - 1], ts);
      var e := q[|q| - 1];
      if e.valid && e.kind == P && e.ts > ts && e.ts < n then e.ts else n
  }

  /** A request answered while another transaction finishes, and the buffer it gets. */
  datatype Wakeup = Wakeup(req: Req, row: nat)

  /** The row a woken write gets, and the buffer. */
  function Promote(r: Row, ts: nat, minTs: nat): (w: (Row, nat))
    ensures w.0.all == r.all && w.0.reqs == r.reqs && w.0.served == r.served
  {
    var (c, i) := Room(r, minTs);
    if 0 <= i < |c.slots| && c.latestRow < |c.mem| && (c.slots[i].row.At? ==> c.slots[i].row.addr < |c.mem|) then
      var p := Place(c, i, ts);
      (p, p.slots[i].row.addr)
    else (c, 0)
  }

  function ServeReq(r: Row, i: nat): Row
    requires i < |r.reqs|
  {
    var q := r.reqs[i];
    r.(maxServed := if q.ts > r.maxServed then q.ts else r.maxServed,
       reqs := r.reqs[i := q.(valid := false)],
       served := if r.all != [] && q.ts > 0 then r.served + {Served(q.ts, Newer(r.all, q.ts - 1), r.latestRow)} else r.served)
  }

  /** One iteration of update_buffer, on entry `i`: a read below `next` is served with the
      latest version, the write at `next` is promoted. */
  function WakeOne(c: Row, i: nat, next: nat, minTs: nat): (w: (Row, seq<Wakeup>))
    ensures w.0.all == c.all && c.served <= w.0.served
    ensures w.0.reqs == if i < |c.reqs| && Wakes(c.reqs[i], next) then c.reqs[i := c.reqs[i].(valid := false)] else c.reqs
    ensures |w.1| == if i < |c.reqs| && Wakes(c.reqs[i], next) then 1 else 0
    ensures i < |c.reqs| && Wakes(c.reqs[i], next) ==> w.1[0].req == c.reqs[i]
  {
    var q := if i < |c.reqs| then c.reqs[i] else NO_REQ;
    if q.valid && q.kind == R && q.ts < next then
      (ServeReq(c, i), [Wakeup(q, c.latestRow)])
    else if q.valid && q.ts == next then
      var (p, buf) := Promote(c, next, minTs);
      (p.(reqs := c.reqs[i := q.(valid := false)]), [Wakeup(q, buf)])
    else (c, [])
  }

  predicate Wakes(q: Req, next: nat) {
    q.valid && ((q.kind == R && q.ts < next) || q.ts == next)
  }

  /** Iterations `0 .. n` of a loop over the request buffer. */
  function Loop(f: (Row, nat) -> (Row, seq<Wakeup>), r: Row, n: nat): (Row, seq<Wakeup>) {
    if n == 0 then (r, [])
    else
      var (c, ws) := Loop(f, r, n - 1);
      var (d, one) := f(c, n - 1);
      (d, ws + one)
  }

  /** What every iteration keeps, the loop keeps. */
  lemma {:induction false} LoopKeeps(f: (Row, nat) -> (Row, seq<Wakeup>), inv: (Row, seq<Wakeup>, nat) -> bool, r: Row, n: nat)
    requires inv(r, [], 0)
    requires forall c: Row, ws, i: nat :: i < n && inv(c, ws, i) ==> inv(f(c, i).0, ws + f(c, i).1, i + 1)
    ensures inv(Loop(f, r, n).0, Loop(f, r, n).1, n)
  {
    if n > 0 {
      LoopKeeps(f, inv, r, n - 1);
      var (c, ws) := Loop(f, r, n - 1);
      assert inv(f(c, n - 1).0, ws + f(c, n - 1).1, n);
    }
  }

  /** update_buffer after its first `n` iterations. */
  function Wake(r: Row, next: nat, minTs: nat, n: nat): (Row, seq<Wakeup>) {
    Loop((c: Row, i: nat) => WakeOne(c, i, next, minTs), r, n)
  }

  lemma WakeStarts(r: Row, next: nat, minTs: nat)
    ensures Wake(r, next, minTs, 0) == (r, [])
  {
  }

  lemma WakeNext(r: Row, next: nat, minTs: nat, n: nat)
    ensures var (c, ws) := Wake(r, next, minTs, n);
            var (d, one) := WakeOne(c, n, next, minTs);
            Wake(r, next, minTs, n + 1) == (d, ws + one)
  {
    hide WakeOne;
  }

  function Woken(ws: seq<Wakeup>): multiset<Req> {
    if ws == [] then multiset{} else Woken(ws[..|ws| - 1]) + multiset{ws[|ws| - 1].req}
  }

  /** One iteration answers entry `i` or leaves the buffer alone. */
  ghost predicate Answers(c: Row, w: (Row, seq<Wakeup>), i: nat, next: nat) {
    if i < |c.reqs| && Wakes(c.reqs[i], next)
    then |w.1| == 1 && w.1[0].req == c.reqs[i] && w.0.reqs == c.reqs[i := c.reqs[i].(valid := false)]
    else w.1 == [] && w.0.reqs == c.reqs
  }

  lemma AnswerConserves(c: Row, ws: seq<Wakeup>, w: (Row, seq<Wakeup>), i: nat, next: nat)
    requires Answers(c, w, i, next)
    ensures Live(w.0.reqs) + Woken(ws + w.1) == Live(c.reqs) + Woken(ws)
  {
    if w.1 == [] {
      assert ws + w.1 == ws;
    } else {
      assert (ws + w.1)[..|ws|] == ws;
      LiveUpdate(c.reqs, i, c.reqs[i].(valid := false));
      var one := multiset{c.reqs[i]};
      assert Live(w.0.reqs) + (Woken(ws) + one) == (Live(w.0.reqs) + one) + Woken(ws);
    }
  }

  /** The first `n` entries of the buffer have been looked at. */
  ghost predicate Cleared(q: seq<Req>, q': seq<Req>, n: nat, next: nat) {
    && |q'| == |q|
    && forall k :: 0 <= k < |q| ==> q'[k] == if k < n && Wakes(q[k], next) then q[k].(valid := false) else q[k]
  }

  lemma ClearedNext(q: seq<Req>, c: Row, w: (Row, seq<Wakeup>), i: nat, next: nat)
    requires Cleared(q, c.reqs, i, next) && i < |q| && Answers(c, w, i, next)
    ensures Cleared(q, w.0.reqs, i + 1, next)
  {
  }

  /** No request is lost and none is answered twice, and exactly those that `next` lets
      through are answered. */
  lemma {:induction false} LoopAnswers(f: (Row, nat) -> (Row, seq<Wakeup>), r: Row, next: nat, n: nat)
    requires n <= |r.reqs| && forall c: Row, i: nat :: Answers(c, f(c, i), i, next)
    ensures Live(Loop(f, r, n).0.reqs) + Woken(Loop(f, r, n).1) == Live(r.reqs)
    ensures Cleared(r.reqs, Loop(f, r, n).0.reqs, n, next)
  {
    hide Live, Wakes;
    if n > 0 {
      LoopAnswers(f, r, next, n - 1);
      var (c, ws) := Loop(f, r, n - 1);
      assert Answers(c, f(c, n - 1), n - 1, next);
      AnswerConserves(c, ws, f(c, n - 1), n - 1, next);
      ClearedNext(r.reqs, c, f(c, n - 1), n - 1, next);
    }
  }

  /** What waited either still waits or has been woken, once; woken are exactly the reads
      below the next pending write, and that write. */
  lemma WakeConserves(r: Row, next: nat, minTs: nat)
    ensures var (d, ws) := Wake(r, next, minTs, |r.reqs|);
      && Live(d.reqs) + Woken(ws) == Live(r.reqs)
      && |d.reqs| == |r.reqs|
      && forall k :: 0 <= k < |r.reqs| ==>
           d.reqs[k] == if Wakes(r.reqs[k], next) then r.reqs[k].(valid := false) else r.reqs[k]
  {
    LoopAnswers((c: Row, i: nat) => WakeOne(c, i, next, minTs), r, next, |r.reqs|);
  }

  // ---------------------------------------------------------------- the invariant

  /** Every buffered request waits for a pending write that is older than it. */
  ghost predicate ReqsOk(r: Row) {
    && r.reqs != []
    && (forall i :: 0 <= i < |r.reqs| && r.reqs[i].valid ==>
          r.pending && r.preTs < r.reqs[i].ts < UINT64_MAX && r.reqs[i].ts in r.used)
    && (forall i, j :: 0 <= i < j < |r.reqs| && r.reqs[i].valid && r.reqs[j].valid ==> r.reqs[i].ts != r.reqs[j].ts)
  }

  /** Every read ever served got the newest version below its timestamp among all versions
      ever committed, no write that can still be committed comes in between, and the buffer it
      was given is that version's for as long as the row remembers it. */
  ghost predicate ReadsOk(r: Row)
    requires r.all != []
  {
    forall s :: s in r.served ==>
      && 0 < s.ts && s.version == Newer(r.all, s.ts - 1)
      && (s.ts <= r.latestWts || s.ts <= r.maxServed)
      && (r.oldestWts <= s.version.ts ==> Holds(r.slots, r.oldestWts, r.base, s.version.ts, s.buf))
  }

  ghost predicate UsedOk(r: Row) {
    && (forall k :: 0 < k < |r.all| ==> r.all[k].ts in r.used)
    && (r.maxServed > 0 ==> r.maxServed in r.used)
  }

  ghost predicate Inv(r: Row) {
    && StoreOk(r) && PendingOk(r) && ReqsOk(r) && ReadsOk(r) && UsedOk(r)
    && |r.slots| > 1
  }

  /** The state of the loop of update_buffer: between two pending writes. */
  ghost predicate Between(c: Row, r: Row, ts: nat, next: nat, n: nat)
    requires n <= |r.reqs|
  {
    && StoreOk(c) && PendingOk(c) && ReadsOk(c) && UsedOk(c) && |c.slots| > 1
    && c.latestWts <= ts < next && c.maxServed < next
    && c.used == r.used && |c.reqs| == |r.reqs|
    && (c.pending ==> c.preTs == next)
    && (c.pending <==> exists k :: 0 <= k < n && r.reqs[k].valid && r.reqs[k].ts == next)
  }

  lemma ServeKeeps(c: Row, i: nat)
    requires StoreOk(c) && PendingOk(c) && ReadsOk(c) && UsedOk(c) && i < |c.reqs|
    requires c.latestWts < c.reqs[i].ts && c.reqs[i].ts in c.used
    requires c.pending ==> c.reqs[i].ts < c.preTs
    ensures var d := ServeReq(c, i); StoreOk(d) && PendingOk(d) && ReadsOk(d) && UsedOk(d)
    ensures c.mem[c.latestRow] == ValueAt(c.all, c.reqs[i].ts - 1)
  {
    var d := ServeReq(c, i);
    AtLast(c.all, c.reqs[i].ts - 1);
    LatestHolds(c);
    assert IndexAt(c.all, c.reqs[i].ts - 1) == |c.all| - 1;
    forall j | 0 <= j < |d.slots| ensures SlotOk(d, j) { assert SlotOk(c, j); }
  }

  lemma PromoteKeeps(c: Row, ts: nat, minTs: nat)
    requires StoreOk(c) && !c.pending && ReadsOk(c) && UsedOk(c) && |c.slots| > 1
    requires c.latestWts < ts < UINT64_MAX && c.maxServed < ts && ts in c.used
    ensures var (p, buf) := Promote(c, ts, minTs);
      && StoreOk(p) && PendingOk(p) && ReadsOk(p) && UsedOk(p) && |p.slots| > 1
      && p.pending && p.preTs == ts && p.slots[p.preId].row == At(buf)
      && buf < |p.mem| && p.mem[buf] == Last(p.all).value
      && p == c.(base := p.base, slots := p.slots, oldestWts := p.oldestWts, numVersions := p.numVersions,
                 mem := p.mem, pending := true, preTs := ts, preId := p.preId)
  {
    hide SlotOk, NoAlias, Holds, ReadsOk;
    RoomKeeps(c, minTs);
    var (d, i) := Room(c, minTs);
    PlaceKeeps(d, i, ts);
    PromoteReads(c, ts, minTs);
  }

  /** No read served so far loses its version's buffer while the row remembers the version. */
  lemma PromoteReads(c: Row, ts: nat, minTs: nat)
    requires StoreOk(c) && !c.pending && ReadsOk(c) && |c.slots| > 1
    requires var p := Promote(c, ts, minTs).0;
             p.all == c.all && p.served == c.served && p.latestWts == c.latestWts && p.maxServed == c.maxServed
             && c.oldestWts <= p.oldestWts
    ensures var p := Promote(c, ts, minTs).0; ReadsOk(p)
  {
    hide Promote, Holds, StoreOk;
    var p := Promote(c, ts, minTs).0;
    forall s | s in p.served && p.oldestWts <= s.version.ts
      ensures Holds(p.slots, p.oldestWts, p.base, s.version.ts, s.buf)
    {
      PromoteHolds(c, ts, minTs, s.version.ts, s.buf);
    }
  }

  /** The buffer when a transaction has just finished at `ts`. */
  ghost predicate Finished(r: Row, ts: nat) {
    && !r.pending && StoreOk(r) && ReadsOk(r) && UsedOk(r) && |r.slots| > 1
    && r.latestWts <= ts && r.maxServed <= ts < UINT64_MAX
    && (forall k :: 0 <= k < |r.reqs| && r.reqs[k].valid ==> ts < r.reqs[k].ts < UINT64_MAX && r.reqs[k].ts in r.used)
    && (forall i, j :: 0 <= i < j < |r.reqs| && r.reqs[i].valid && r.reqs[j].valid ==> r.reqs[i].ts != r.reqs[j].ts)
  }

  /** Who was woken got what it asked for: a read the latest version, which no later write can
      come before, the promoted write its own buffer. */
  ghost predicate GotRight(c: Row, ws: seq<Wakeup>) {
    forall w :: w in ws ==>
      if w.req.kind == R then
        && w.row == c.latestRow && c.latestWts < w.req.ts <= c.maxServed
        && c.all != [] && Served(w.req.ts, Newer(c.all, w.req.ts - 1), w.row) in c.served
      else c.pending && c.preTs == w.req.ts && c.preId < |c.slots| && c.slots[c.preId].row == At(w.row)
           && w.row < |c.mem| && c.mem[w.row] == LatestValue(c)
  }

  function LatestValue(c: Row): Val { if c.all == [] then [] else Last(c.all).value }

  lemma ServeCase(c: Row, ws: seq<Wakeup>, r: Row, ts: nat, next: nat, n: nat)
    requires n < |r.reqs| && Finished(r, ts) && next == NextPre(r.reqs, ts) && Between(c, r, ts, next, n)
    requires c.reqs[n] == r.reqs[n] && GotRight(c, ws) && r.reqs[n].valid && r.reqs[n].kind == R && r.reqs[n].ts < next
    ensures Between(ServeReq(c, n), r, ts, next, n + 1)
    ensures GotRight(ServeReq(c, n), ws + [Wakeup(c.reqs[n], c.latestRow)])
  {
    hide StoreOk, PendingOk, UsedOk, NextPre;
    ServeKeeps(c, n);
  }

  lemma NextIsWrite(r: Row, ts: nat, n: nat)
    requires Finished(r, ts) && n < |r.reqs| && r.reqs[n].valid && r.reqs[n].ts == NextPre(r.reqs, ts)
    ensures r.reqs[n].kind == P
    ensures forall k :: 0 <= k < |r.reqs| && r.reqs[k].valid && r.reqs[k].ts == NextPre(r.reqs, ts) ==> k == n
  {
    var k :| 0 <= k < |r.reqs| && r.reqs[k].valid && r.reqs[k].kind == P && r.reqs[k].ts == NextPre(r.reqs, ts);
    assert k == n;
  }

  lemma PromoteCase(c: Row, ws: seq<Wakeup>, r: Row, ts: nat, next: nat, minTs: nat, n: nat)
    requires n < |r.reqs| && Finished(r, ts) && next == NextPre(r.reqs, ts) && Between(c, r, ts, next, n)
    requires c.reqs[n] == r.reqs[n] && GotRight(c, ws) && r.reqs[n].valid && r.reqs[n].ts == next
    ensures var (p, buf) := Promote(c, next, minTs);
      var d := p.(reqs := c.reqs[n := c.reqs[n].(valid := false)]);
      Between(d, r, ts, next, n + 1) && GotRight(d, ws + [Wakeup(c.reqs[n], buf)])
      && d.latestRow == c.latestRow && d.maxServed == c.maxServed
  {
    hide NextPre, Promote, NoAlias, SlotOk, Ascending;
    NextIsWrite(r, ts, n);
    assert !c.pending;
    PromoteKeeps(c, next, minTs);
    var (p, buf) := Promote(c, next, minTs);
    SameStore(p, p.(reqs := c.reqs[n := c.reqs[n].(valid := false)]));
  }

  lemma WakeOneKeeps(c: Row, ws: seq<Wakeup>, r: Row, ts: nat, next: nat, minTs: nat, n: nat)
    requires n < |r.reqs| && Finished(r, ts) && next == NextPre(r.reqs, ts) && Between(c, r, ts, next, n)
    requires c.reqs[n] == r.reqs[n] && GotRight(c, ws)
    ensures var (d, one) := WakeOne(c, n, next, minTs);
      Between(d, r, ts, next, n + 1) && GotRight(d, ws + one) && d.latestRow == c.latestRow && c.maxServed <= d.maxServed
  {
    hide Between, GotRight, Finished, NextPre, Promote;
    var q := r.reqs[n];
    SameBuffer(c, r, ts, next, n);
    if q.valid && q.kind == R && q.ts < next {
      ServeCase(c, ws, r, ts, next, n);
    } else if q.valid && q.ts == next {
      PromoteCase(c, ws, r, ts, next, minTs, n);
    } else {
      SkipCase(c, r, ts, next, n);
      assert ws + [] == ws;
    }
  }

  lemma SameBuffer(c: Row, r: Row, ts: nat, next: nat, n: nat)
    requires n < |r.reqs| && Between(c, r, ts, next, n)
    ensures |c.reqs| == |r.reqs|
  {
  }

  lemma SkipCase(c: Row, r: Row, ts: nat, next: nat, n: nat)
    requires n < |r.reqs| && Between(c, r, ts, next, n) && !(r.reqs[n].valid && r.reqs[n].ts == next)
    ensures Between(c, r, ts, next, n + 1)
  {
    hide StoreOk, PendingOk, ReadsOk, UsedOk;
  }

  /** Only the buffer differs. */
  lemma SameStore(p: Row, d: Row)
    requires d == p.(reqs := d.reqs) && StoreOk(p)
    ensures StoreOk(d) && (PendingOk(p) ==> PendingOk(d)) && (ReadsOk(p) ==> ReadsOk(d)) && (UsedOk(p) ==> UsedOk(d))
  {
    forall j | 0 <= j < |d.slots| ensures SlotOk(d, j) { assert SlotOk(p, j); }
  }

  lemma StartsBetween(r: Row, ts: nat)
    requires Finished(r, ts)
    ensures Between(r, r, ts, NextPre(r.reqs, ts), 0)
  {
  }

  /** What the loop of update_buffer keeps. */
  ghost predicate LoopInv(c: Row, ws: seq<Wakeup>, r: Row, ts: nat, next: nat, i: nat) {
    && i <= |r.reqs| && Between(c, r, ts, next, i) && GotRight(c, ws)
    && c.latestRow == r.latestRow && c.all == r.all && r.served <= c.served && r.maxServed <= c.maxServed
    && (c.maxServed == r.maxServed || ReadAt(ws, c.maxServed))
    && forall k :: i <= k < |r.reqs| ==> c.reqs[k] == r.reqs[k]
  }

  /** A read at `ts` is among those woken. */
  ghost predicate ReadAt(ws: seq<Wakeup>, ts: nat) {
    exists w :: w in ws && w.req.kind == R && w.req.ts == ts
  }

  lemma LoopStep(c: Row, ws: seq<Wakeup>, r: Row, ts: nat, minTs: nat, i: nat)
    requires Finished(r, ts) && i < |r.reqs| && LoopInv(c, ws, r, ts, NextPre(r.reqs, ts), i)
    ensures var (d, one) := WakeOne(c, i, NextPre(r.reqs, ts), minTs);
      LoopInv(d, ws + one, r, ts, NextPre(r.reqs, ts), i + 1)
  {
    hide Between, GotRight, Finished, NextPre, Promote;
    SameBuffer(c, r, ts, NextPre(r.reqs, ts), i);
    WakeOneKeeps(c, ws, r, ts, NextPre(r.reqs, ts), minTs, i);
    PromotedServes(c, NextPre(r.reqs, ts), minTs);
    WokenServes(c, ws, i, NextPre(r.reqs, ts), minTs);
  }

  lemma PromotedServes(c: Row, ts: nat, minTs: nat)
    ensures Promote(c, ts, minTs).0.maxServed == c.maxServed
  {
  }

  /** Only a read that is woken raises the largest timestamp served. */
  lemma WokenServes(c: Row, ws: seq<Wakeup>, i: nat, next: nat, minTs: nat)
    requires i < |c.reqs| && Promote(c, next, minTs).0.maxServed == c.maxServed
    ensures var (d, one) := WakeOne(c, i, next, minTs);
      && (d.maxServed == c.maxServed || ReadAt(ws + one, d.maxServed))
      && forall ts :: ReadAt(ws, ts) ==> ReadAt(ws + one, ts)
  {
    hide Promote;
    var (d, one) := WakeOne(c, i, next, minTs);
    forall ts | ReadAt(ws, ts) ensures ReadAt(ws + one, ts) {
      var w :| w in ws && w.req.kind == R && w.req.ts == ts;
      assert w in ws + one;
    }
    if d.maxServed != c.maxServed { assert one[0] in ws + one; }
  }

  lemma LoopStarts(r: Row, ts: nat)
    requires Finished(r, ts)
    ensures LoopInv(r, [], r, ts, NextPre(r.reqs, ts), 0)
  {
    hide StoreOk, PendingOk, ReadsOk, UsedOk, NextPre, Finished, Between;
    StartsBetween(r, ts);
  }

  lemma WakeKeeps(r: Row, ts: nat, minTs: nat, n: nat)
    requires n <= |r.reqs| && Finished(r, ts)
    ensures var (d, ws) := Wake(r, NextPre(r.reqs, ts), minTs, n);
      LoopInv(d, ws, r, ts, NextPre(r.reqs, ts), n)
  {
    var next := NextPre(r.reqs, ts);
    var f := (c: Row, i: nat) => WakeOne(c, i, next, minTs);
    ghost var inv := (c: Row, ws: seq<Wakeup>, i: nat) => LoopInv(c, ws, r, ts, next, i);
    hide LoopInv, Finished, WakeOne, NextPre, Loop;
    LoopStarts(r, ts);
    forall c: Row, ws, i: nat | i < n && inv(c, ws, i) ensures inv(f(c, i).0, ws + f(c, i).1, i + 1) {
      LoopStep(c, ws, r, ts, minTs, i);
    }
    LoopKeeps(f, inv, r, n);
  }

  // ---------------------------------------------------------------- requests

  /** access, R_REQ: what the read gets, and in which buffer. */
  ghost function Read(r: Row, ts: nat, txn: nat): (Row, Code, nat)
    requires r.reqs != [] && r.all != [] && ts > 0
  {
    var u := r.(used := r.used + {ts});
    if ts < r.oldestWts then (u, Abort, r.base)
    else if ts > r.latestWts then
      if r.pending && r.preTs < ts then
        (u.(reqs := Enqueue(r.reqs, Req(true, R, ts, txn))), Wait, r.base)
      else
        (u.(maxServed := if ts > r.maxServed then ts else r.maxServed,
            served := r.served + {Served(ts, Newer(r.all, ts - 1), r.latestRow)}), Ok, r.latestRow)
    else
      (u.(served := if Finds(r.slots, ts) then r.served + {Served(ts, Newer(r.all, ts - 1), OldRow(r, ts))} else r.served),
       Ok, OldRow(r, ts))
  }

  /** The buffer an old read is given. */
  function OldRow(r: Row, ts: nat): nat {
    var i := Scan(r.slots, ts);
    if i < 0 || r.slots[i].row.Null? then r.base else r.slots[i].row.addr
  }

  /** access, P_REQ. */
  function Prewrite(r: Row, ts: nat, txn: nat, minTs: nat): (Row, Code, nat)
    requires r.reqs != []
  {
    var u := r.(used := r.used + {ts});
    if ts < r.latestWts || ts < r.maxServed || (r.pending && r.preTs > ts) then (u, Abort, r.base)
    else if r.pending then (u.(reqs := Enqueue(r.reqs, Req(true, P, ts, txn))), Wait, r.base)
    else
      var (p, buf) := Promote(u, ts, minTs);
      (p, Ok, buf)
  }

  /** The transaction changes the buffer it has reserved. */
  function Fill(r: Row, v: Val): Row
    requires r.pending && r.preId < |r.slots| && r.slots[r.preId].row.At? && r.slots[r.preId].row.addr < |r.mem|
  {
    r.(mem := r.mem[r.slots[r.preId].row.addr := v])
  }

  /** access, W_REQ, up to update_buffer: the reserved buffer becomes the latest version. */
  function Install(r: Row): Row
    requires r.pending && r.preId < |r.slots| && r.slots[r.preId].row.At? && r.slots[r.preId].row.addr < |r.mem|
  {
    var e := r.slots[r.preId];
    r.(slots := r.slots[r.preId := Slot(true, e.reserved, r.preTs, e.row)],
       latestWts := r.preTs, latestRow := e.row.addr, pending := false, numVersions := r.numVersions + 1,
       all := r.all + [Version(r.preTs, r.mem[e.row.addr])])
  }

  /** access, XP_REQ, up to update_buffer: the reservation is dropped. */
  function Drop(r: Row): Row
    requires r.pending && r.preId < |r.slots|
  {
    var e := r.slots[r.preId];
    r.(slots := r.slots[r.preId := e.(valid := false, reserved := false)], pending := false)
  }

  function Update(r: Row, ts: nat, minTs: nat): (Row, seq<Wakeup>) {
    Wake(r, NextPre(r.reqs, ts), minTs, |r.reqs|)
  }

  // ---------------------------------------------------------------- every request keeps the invariant

  ghost predicate FreshTs(r: Row, ts: nat) {
    0 < ts < UINT64_MAX && ts !in r.used
  }

  lemma EnqueueKeeps(r: Row, e: Req)
    requires Inv(r) && FreshTs(r, e.ts) && e.valid && r.pending && r.preTs < e.ts
    ensures Inv(r.(used := r.used + {e.ts}, reqs := Enqueue(r.reqs, e)))
  {
    var u := r.(used := r.used + {e.ts}, reqs := Enqueue(r.reqs, e));
    forall j | 0 <= j < |u.slots| ensures SlotOk(u, j) { assert SlotOk(r, j); }
    var f := FirstFree(r.reqs);
    forall k | 0 <= k < |u.reqs| && u.reqs[k].valid && k != f ensures k < |r.reqs| && u.reqs[k] == r.reqs[k] {}
  }

  /** A version's buffer holds its value, and no other version's buffer is the same. */
  lemma HoldsValue(r: Row, v: nat, buf: nat)
    requires StoreOk(r) && Holds(r.slots, r.oldestWts, r.base, v, buf)
    ensures buf < |r.mem| && r.mem[buf] == ValueAt(r.all, v) && r.oldestWts <= v <= r.latestWts && Newer(r.all, v).ts == v
  {
    if !(v == r.oldestWts && buf == r.base) {
      var i :| 0 <= i < |r.slots| && r.slots[i].valid && r.slots[i].ts == v && r.slots[i].row == At(buf);
      assert SlotOk(r, i);
    }
  }

  lemma HoldsOnce(r: Row, v: nat, w: nat, buf: nat)
    requires StoreOk(r) && Holds(r.slots, r.oldestWts, r.base, v, buf) && Holds(r.slots, r.oldestWts, r.base, w, buf)
    ensures v == w
  {
    if i :| 0 <= i < |r.slots| && r.slots[i].valid && r.slots[i].ts == v && r.slots[i].row == At(buf) {
      assert SlotOk(r, i);
    }
    if j :| 0 <= j < |r.slots| && r.slots[j].valid && r.slots[j].ts == w && r.slots[j].row == At(buf) {
      assert SlotOk(r, j);
    }
  }

  lemma LatestHolds(r: Row)
    requires StoreOk(r)
    ensures Holds(r.slots, r.oldestWts, r.base, r.latestWts, r.latestRow)
  {
    if r.oldestWts < r.latestWts {
      assert Stored(r.slots, r.all[|r.all| - 1].ts);
      var i :| 0 <= i < |r.slots| && r.slots[i].valid && r.slots[i].ts == r.latestWts;
      assert SlotOk(r, i);
    }
  }

  /** A lookup above the oldest version finds the newest version below `ts`, and its buffer, if
      and only if no stored version misleads it. */
  lemma LookupIsRight(r: Row, ts: nat)
    requires StoreOk(r) && r.oldestWts < ts
    ensures Holds(r.slots, r.oldestWts, r.base, Newer(r.all, ts - 1).ts, OldRow(r, ts)) <==> Finds(r.slots, ts)
    ensures Finds(r.slots, ts) ==> OldRow(r, ts) < |r.mem| && r.mem[OldRow(r, ts)] == ValueAt(r.all, ts - 1)
  {
    var k := IndexAt(r.all, ts - 1);
    Exact(r.all, k);
    NoLater(r.all, r.oldestWts, ts - 1);
    if r.all[k].ts > r.oldestWts {
      LookupStored(r, ts, k);
    } else {
      forall j ensures !Candidate(r.slots, ts, j) {
        if Candidate(r.slots, ts, j) {
          assert SlotOk(r, j);
          NoLater(r.all, r.slots[j].ts, ts - 1);
        }
      }
      ScanNone(r.slots, ts);
    }
  }

  lemma StoredIsNewest(r: Row, ts: nat, k: nat, m: int)
    requires StoreOk(r) && ts > 0 && k == IndexAt(r.all, ts - 1) && r.all[k].ts > r.oldestWts
    requires 0 <= m < |r.slots| && r.slots[m].valid && r.slots[m].ts == r.all[k].ts
    ensures Newest(r.slots, ts, m)
  {
    forall j | Candidate(r.slots, ts, j) && j != m ensures r.slots[j].ts < r.slots[m].ts {
      assert SlotOk(r, j);
      NoLater(r.all, r.slots[j].ts, ts - 1);
      if j < m { assert r.slots[j].ts != r.slots[m].ts; } else { assert r.slots[m].ts != r.slots[j].ts; }
    }
  }

  lemma LookupStored(r: Row, ts: nat, k: nat)
    requires StoreOk(r) && r.oldestWts < ts
    requires k == IndexAt(r.all, ts - 1) && r.all[k].ts > r.oldestWts
    ensures Holds(r.slots, r.oldestWts, r.base, r.all[k].ts, OldRow(r, ts)) <==> Finds(r.slots, ts)
    ensures Finds(r.slots, ts) ==> OldRow(r, ts) < |r.mem| && r.mem[OldRow(r, ts)] == ValueAt(r.all, ts - 1)
  {
    hide Scan, Newest, NoAlias, Finds;
    assert Stored(r.slots, r.all[k].ts);
    var m :| 0 <= m < |r.slots| && r.slots[m].valid && r.slots[m].ts == r.all[k].ts;
    StoredIsNewest(r, ts, k, m);
    FindsMeans(r.slots, ts, m);
    assert SlotOk(r, m);
    Exact(r.all, k);
    if !Finds(r.slots, ts) { LookupElsewhere(r, ts, k, m); }
  }

  /** A scan that settles on another slot yields another version's buffer. */
  lemma LookupElsewhere(r: Row, ts: nat, k: nat, m: int)
    requires StoreOk(r) && k < |r.all| && r.all[k].ts > r.oldestWts
    requires 0 <= m < |r.slots| && r.slots[m].valid && r.slots[m].ts == r.all[k].ts && Scan(r.slots, ts) != m
    ensures !Holds(r.slots, r.oldestWts, r.base, r.all[k].ts, OldRow(r, ts))
  {
    var n := Scan(r.slots, ts);
    assert SlotOk(r, m);
    if n >= 0 {
      assert SlotOk(r, n);
      if n < m { assert r.slots[n].ts != r.slots[m].ts; } else { assert r.slots[m].ts != r.slots[n].ts; }
      assert Holds(r.slots, r.oldestWts, r.base, r.slots[n].ts, OldRow(r, ts));
    } else {
      assert Holds(r.slots, r.oldestWts, r.base, r.oldestWts, OldRow(r, ts));
    }
    if Holds(r.slots, r.oldestWts, r.base, r.all[k].ts, OldRow(r, ts)) {
      HoldsOnce(r, r.all[k].ts, if n >= 0 then r.slots[n].ts else r.oldestWts, OldRow(r, ts));
    }
  }

  /** A version that exists at `a` is no newer than the one chosen at `b`. */
  lemma NoLater(h: seq<Version>, a: nat, b: nat)
    requires Ascending(h) && Newer(h, a).ts == a <= b
    ensures a <= Newer(h, b).ts
  {
  }

  lemma Exact(h: seq<Version>, k: nat)
    requires Ascending(h) && k < |h|
    ensures IndexAt(h, h[k].ts) == k
  {
  }

  lemma OldestIsUsed(r: Row)
    requires StoreOk(r) && UsedOk(r)
    ensures r.oldestWts > 0 ==> r.oldestWts in r.used
  {
    var k := IndexAt(r.all, r.oldestWts);
    assert k > 0 ==> r.all[k].ts in r.used;
  }

  /** The store does not depend on the requests. */
  lemma StoreFrame(r: Row, c: Row)
    requires StoreOk(r) && c == r.(used := c.used, served := c.served, maxServed := c.maxServed, reqs := c.reqs)
    ensures StoreOk(c)
  {
    forall j | 0 <= j < |c.slots| ensures SlotOk(c, j) { assert SlotOk(r, j); }
  }

  lemma LatestServes(r: Row, ts: nat)
    requires StoreOk(r) && ts > r.latestWts
    ensures r.all != [] && Newer(r.all, ts - 1) == Last(r.all) && Last(r.all).ts == r.latestWts
    ensures r.mem[r.latestRow] == ValueAt(r.all, ts - 1)
    ensures Holds(r.slots, r.oldestWts, r.base, r.latestWts, r.latestRow)
  {
    hide SlotOk, NoAlias;
    AtLast(r.all, ts - 1);
    LatestHolds(r);
    assert IndexAt(r.all, ts - 1) == |r.all| - 1;
  }

  lemma ReadLatest(r: Row, ts: nat)
    requires Inv(r) && FreshTs(r, ts) && ts > r.latestWts && !(r.pending && r.preTs < ts)
    ensures Inv(r.(used := r.used + {ts}, maxServed := if ts > r.maxServed then ts else r.maxServed,
                   served := r.served + {Served(ts, Newer(r.all, ts - 1), r.latestRow)}))
    ensures r.mem[r.latestRow] == ValueAt(r.all, ts - 1)
    ensures Holds(r.slots, r.oldestWts, r.base, Newer(r.all, ts - 1).ts, r.latestRow)
  {
    hide StoreOk, Holds, Newer;
    LatestServes(r, ts);
    StoreFrame(r, r.(used := r.used + {ts}, maxServed := if ts > r.maxServed then ts else r.maxServed,
                     served := r.served + {Served(ts, Newer(r.all, ts - 1), r.latestRow)}));
  }

  lemma ReadPast(r: Row, ts: nat)
    requires Inv(r) && FreshTs(r, ts) && r.oldestWts < ts <= r.latestWts
    ensures Finds(r.slots, ts) ==> Inv(r.(used := r.used + {ts}, served := r.served + {Served(ts, Newer(r.all, ts - 1), OldRow(r, ts))}))
  {
    hide Finds, SlotOk, NoAlias;
    LookupIsRight(r, ts);
    StoreFrame(r, r.(used := r.used + {ts}, served := r.served + {Served(ts, Newer(r.all, ts - 1), OldRow(r, ts))}));
  }

  lemma UseKeeps(r: Row, ts: nat)
    requires Inv(r)
    ensures Inv(r.(used := r.used + {ts}))
  {
    StoreFrame(r, r.(used := r.used + {ts}));
  }

  /** A read aborts exactly when its version is recycled, waits exactly when an older write is
      pending, and otherwise gets the newest version below its timestamp, if it asks for the
      latest one or the lookup is not misled, and only then. */
  lemma ReadKeeps(r: Row, ts: nat, txn: nat)
    requires Inv(r) && FreshTs(r, ts)
    ensures var (c, code, cur) := Read(r, ts, txn);
      && Inv(c)
      && c == r.(reqs := c.reqs, maxServed := c.maxServed, served := c.served, used := r.used + {ts})
      && c.maxServed == (if code == Ok && ts > r.latestWts && ts > r.maxServed then ts else r.maxServed)
      && (code == Abort <==> ts < r.oldestWts)
      && (code == Wait <==> ts > r.latestWts && r.pending && r.preTs < ts)
      && Live(c.reqs) == Live(r.reqs) + (if code == Wait then multiset{Req(true, R, ts, txn)} else multiset{})
      && (code == Ok ==>
            && (ts <= c.latestWts || ts <= c.maxServed)
            && (ts > r.latestWts || Finds(r.slots, ts) <==>
                  Holds(r.slots, r.oldestWts, r.base, Newer(r.all, ts - 1).ts, cur))
            && (ts > r.latestWts || Finds(r.slots, ts) ==>
                  cur < |r.mem| && r.mem[cur] == ValueAt(r.all, ts - 1) && Served(ts, Newer(r.all, ts - 1), cur) in c.served))
  {
    if ts < r.oldestWts {
      UseKeeps(r, ts);
    } else if ts > r.latestWts {
      if r.pending && r.preTs < ts {
        EnqueueKeeps(r, Req(true, R, ts, txn));
        EnqueueAdds(r.reqs, Req(true, R, ts, txn));
      } else {
        ReadLatest(r, ts);
      }
    } else {
      OldestIsUsed(r);
      UseKeeps(r, ts);
      ReadPast(r, ts);
      LookupIsRight(r, ts);
    }
  }

  lemma PrewriteOk(r: Row, ts: nat, minTs: nat)
    requires Inv(r) && FreshTs(r, ts) && !r.pending && ts >= r.latestWts && ts >= r.maxServed
    ensures var (p, buf) := Promote(r.(used := r.used + {ts}), ts, minTs);
      && Inv(p) && p.all == r.all && p.reqs == r.reqs && p.pending && p.preTs == ts
      && p.slots[p.preId].row == At(buf) && buf < |p.mem| && p.mem[buf] == Last(r.all).value
      && p.maxServed == r.maxServed && p.latestWts == r.latestWts && p.latestRow == r.latestRow && p.served == r.served
  {
    var u := r.(used := r.used + {ts});
    UseKeeps(r, ts);
    LatestUsed(r);
    PromoteKeeps(u, ts, minTs);
  }

  /** A write is refused exactly when a newer version, served read or pending write exists,
      waits exactly when an older write is pending, and otherwise gets a private copy of the
      latest version. */
  lemma PrewriteKeeps(r: Row, ts: nat, txn: nat, minTs: nat)
    requires Inv(r) && FreshTs(r, ts)
    ensures var (c, code, buf) := Prewrite(r, ts, txn, minTs);
      && Inv(c) && c.all == r.all
      && c.maxServed == r.maxServed && c.latestWts == r.latestWts && c.latestRow == r.latestRow && c.served == r.served
      && (code != Ok ==> c == r.(reqs := c.reqs, used := r.used + {ts}))
      && (code == Ok ==> c.reqs == r.reqs)
      && (code == Abort <==> ts < r.latestWts || ts < r.maxServed || (r.pending && r.preTs > ts))
      && (code == Wait <==> ts >= r.latestWts && ts >= r.maxServed && r.pending && r.preTs <= ts)
      && Live(c.reqs) == Live(r.reqs) + (if code == Wait then multiset{Req(true, P, ts, txn)} else multiset{})
      && (code == Ok ==> c.pending && c.preTs == ts && c.slots[c.preId].row == At(buf)
                         && buf < |c.mem| && c.mem[buf] == Last(r.all).value)
  {
    if ts < r.latestWts || ts < r.maxServed || (r.pending && r.preTs > ts) {
      UseKeeps(r, ts);
    } else if r.pending {
      EnqueueKeeps(r, Req(true, P, ts, txn));
      EnqueueAdds(r.reqs, Req(true, P, ts, txn));
    } else {
      PrewriteOk(r, ts, minTs);
    }
  }

  lemma LatestUsed(r: Row)
    requires StoreOk(r) && UsedOk(r)
    ensures r.latestWts > 0 ==> r.latestWts in r.used
  {
    assert |r.all| > 1 ==> r.all[|r.all| - 1].ts in r.used;
  }

  /** Filling the reserved buffer disturbs no version. */
  lemma FillKeeps(r: Row, v: Val)
    requires Inv(r) && r.pending
    ensures r.slots[r.preId].row.addr < |r.mem|
    ensures Inv(Fill(r, v))
  {
    assert SlotOk(r, r.preId);
    var c := Fill(r, v);
    forall j | 0 <= j < |c.slots| ensures SlotOk(c, j) {
      assert SlotOk(r, j);
      if r.slots[j].row.At? && j != r.preId {
        if j < r.preId { assert r.slots[j].row != r.slots[r.preId].row; } else { assert r.slots[r.preId].row != r.slots[j].row; }
      }
    }
  }

  lemma InstallSlot(r: Row, j: int)
    requires Inv(r) && r.pending && 0 <= j < |r.slots| && r.slots[r.preId].row.addr < |r.mem|
    ensures SlotOk(Install(r), j)
  {
    var c := Install(r);
    assert SlotOk(r, j) && SlotOk(r, r.preId);
    var v := Version(r.preTs, r.mem[r.slots[r.preId].row.addr]);
    if j != r.preId {
      if r.slots[j].valid { AppendIndex(r.all, v, r.slots[j].ts); }
      if j < r.preId && r.slots[j].row.At? { assert r.slots[j].row != r.slots[r.preId].row; }
      if r.preId < j { assert r.slots[r.preId].row != r.slots[j].row; }
    }
  }

  lemma AppendIndex(h: seq<Version>, v: Version, at: nat)
    requires h != []
    ensures IndexAt(h + [v], at) == if at < v.ts then IndexAt(h, at) else |h|
    ensures Newer(h + [v], at) == if at < v.ts then Newer(h, at) else v
  {
    assert (h + [v])[..|h|] == h;
  }

  lemma InstallStore(r: Row)
    requires Inv(r) && r.pending && r.slots[r.preId].row.addr < |r.mem|
    ensures StoreOk(Install(r))
  {
    hide NoAlias, SlotOk;
    assert SlotOk(r, r.preId);
    var c := Install(r);
    var v := Version(r.preTs, r.mem[r.slots[r.preId].row.addr]);
    CountUpdate(r.slots, r.preId, c.slots[r.preId]);
    AppendIndex(r.all, v, r.oldestWts);
    forall j | 0 <= j < |c.slots| ensures SlotOk(c, j) { InstallSlot(r, j); }
    forall k | 0 <= k < |c.all| && c.all[k].ts > c.oldestWts ensures Stored(c.slots, c.all[k].ts) {
      InstallStored(r, k);
    }
    InstallAlias(r);
  }

  /** Committing makes the reserved buffer the latest version; no read served so far is
      affected. */
  lemma InstallKeeps(r: Row)
    requires Inv(r) && r.pending
    ensures r.slots[r.preId].row.addr < |r.mem|
    ensures Finished(Install(r), r.preTs)
  {
    assert SlotOk(r, r.preId);
    InstallStore(r);
    InstallReads(r);
    assert UsedOk(Install(r));
  }

  lemma InstallReads(r: Row)
    requires Inv(r) && r.pending && r.slots[r.preId].row.addr < |r.mem|
    ensures ReadsOk(Install(r))
  {
    hide Holds, StoreOk;
    var c := Install(r);
    var v := Version(r.preTs, r.mem[r.slots[r.preId].row.addr]);
    forall s | s in c.served
      ensures s.version == Newer(c.all, s.ts - 1) && (s.ts <= c.latestWts || s.ts <= c.maxServed)
      ensures c.oldestWts <= s.version.ts ==> Holds(c.slots, c.oldestWts, c.base, s.version.ts, s.buf)
    {
      HasLatest(r);
      AppendIndex(r.all, v, s.ts - 1);
      if c.oldestWts <= s.version.ts { SlotsHold(r.slots, c.slots, r.oldestWts, r.base, s.version.ts, s.buf); }
    }
  }

  lemma HasLatest(r: Row)
    requires StoreOk(r)
    ensures r.all != [] && r.latestWts == Last(r.all).ts
  {
  }

  lemma InstallStored(r: Row, k: int)
    requires Inv(r) && r.pending && r.slots[r.preId].row.addr < |r.mem|
    requires 0 <= k < |Install(r).all| && Install(r).all[k].ts > r.oldestWts
    ensures Stored(Install(r).slots, Install(r).all[k].ts)
  {
    var c := Install(r);
    if k == |r.all| {
      assert c.slots[r.preId].valid && c.slots[r.preId].ts == c.all[k].ts;
    } else {
      assert Stored(r.slots, r.all[k].ts);
      var j :| 0 <= j < |r.slots| && r.slots[j].valid && r.slots[j].ts == r.all[k].ts;
      assert c.slots[j].valid && c.slots[j].ts == c.all[k].ts;
    }
  }

  lemma InstallAlias(r: Row)
    requires Inv(r) && r.pending && r.slots[r.preId].row.addr < |r.mem|
    ensures NoAlias(Install(r).slots)
  {
    var h := Install(r).slots;
    forall a, b | 0 <= a < b < |h| && h[a].row.At? ensures h[a].row != h[b].row { assert r.slots[a].row != r.slots[b].row; }
    forall a, b | 0 <= a < b < |h| && h[a].valid && h[b].valid ensures h[a].ts != h[b].ts {
      if a != r.preId { assert SlotOk(r, a); NoLater(r.all, r.slots[a].ts, r.slots[a].ts); }
      if b != r.preId { assert SlotOk(r, b); }
    }
  }

  /** Dropping the reservation leaves every version where it is. */
  lemma DropKeeps(r: Row)
    requires Inv(r) && r.pending
    ensures Finished(Drop(r), r.preTs) && Drop(r).all == r.all
  {
    DropStore(r);
    DropReads(r);
  }

  lemma DropReads(r: Row)
    requires Inv(r) && r.pending
    ensures ReadsOk(Drop(r))
  {
    hide Holds, StoreOk;
    var c := Drop(r);
    HasLatest(r);
    forall s | s in c.served && c.oldestWts <= s.version.ts ensures Holds(c.slots, c.oldestWts, c.base, s.version.ts, s.buf) {
      SlotsHold(r.slots, c.slots, r.oldestWts, r.base, s.version.ts, s.buf);
    }
  }

  lemma DropStore(r: Row)
    requires Inv(r) && r.pending
    ensures StoreOk(Drop(r))
  {
    var c := Drop(r);
    CountUpdate(r.slots, r.preId, c.slots[r.preId]);
    forall j | 0 <= j < |c.slots| ensures SlotOk(c, j) { assert SlotOk(r, j); }
    forall k | 0 <= k < |c.all| && c.all[k].ts > c.oldestWts ensures Stored(c.slots, c.all[k].ts) {
      assert Stored(r.slots, r.all[k].ts);
      var j :| 0 <= j < |r.slots| && r.slots[j].valid && r.slots[j].ts == r.all[k].ts;
      assert c.slots[j].valid && c.slots[j].ts == c.all[k].ts;
    }
  }

  /** update_buffer restores the invariant: it answers exactly the reads below the next
      pending write and that write, each once, and leaves the rest waiting for it. */
  lemma UpdateKeeps(r: Row, ts: nat, minTs: nat)
    requires Finished(r, ts) && r.reqs != []
    ensures var (d, ws) := Update(r, ts, minTs);
      && Inv(d) && d.all == r.all && d.latestRow == r.latestRow && d.used == r.used && r.served <= d.served
      && r.maxServed <= d.maxServed && (d.maxServed == r.maxServed || ReadAt(ws, d.maxServed)) && GotRight(d, ws)
      && Live(d.reqs) + Woken(ws) == Live(r.reqs)
      && (forall q :: q in Live(d.reqs) <==> q in Live(r.reqs) && q.ts > NextPre(r.reqs, ts))
      && (d.pending <==> NextPre(r.reqs, ts) < UINT64_MAX)
      && (d.pending ==> d.preTs == NextPre(r.reqs, ts))
  {
    hide StoreOk, PendingOk, ReadsOk, UsedOk, NextPre;
    var next := NextPre(r.reqs, ts);
    WakeKeeps(r, ts, minTs, |r.reqs|);
    WakeConserves(r, next, minTs);
    var (d, ws) := Update(r, ts, minTs);
    UpdateLeaves(r, d, ts, next);
    forall q ensures q in Live(d.reqs) <==> q in Live(r.reqs) && q.ts > next {
      LiveHas(d.reqs, q);
      LiveHas(r.reqs, q);
    }
  }

  lemma UpdateLeaves(r: Row, d: Row, ts: nat, next: nat)
    requires Finished(r, ts) && next == NextPre(r.reqs, ts) && Between(d, r, ts, next, |r.reqs|)
    requires forall k :: 0 <= k < |r.reqs| ==>
               d.reqs[k] == if Wakes(r.reqs[k], next) then r.reqs[k].(valid := false) else r.reqs[k]
    ensures d.pending <==> next < UINT64_MAX
    ensures forall q: Req :: q.valid ==> (q in d.reqs <==> q in r.reqs && q.ts > next)
    ensures r.reqs != [] ==> ReqsOk(d)
  {
    if next < UINT64_MAX {
      var k :| 0 <= k < |r.reqs| && r.reqs[k].valid && r.reqs[k].kind == P && r.reqs[k].ts == next;
    }
    forall k | 0 <= k < |r.reqs| ensures d.reqs[k].valid <==> r.reqs[k].valid && r.reqs[k].ts > next {
      if r.reqs[k].valid { Remains(r, ts, k); }
    }
    StillThere(r.reqs, d.reqs, next);
  }

  lemma Remains(r: Row, ts: nat, k: int)
    requires Finished(r, ts) && 0 <= k < |r.reqs| && r.reqs[k].valid
    ensures Wakes(r.reqs[k], NextPre(r.reqs, ts)) <==> r.reqs[k].ts <= NextPre(r.reqs, ts)
  {
  }

  lemma StillThere(before: seq<Req>, after: seq<Req>, next: nat)
    requires |after| == |before|
    requires forall k :: 0 <= k < |before| ==> after[k].valid ==> after[k] == before[k]
    requires forall k :: 0 <= k < |before| ==> (after[k].valid <==> before[k].valid && before[k].ts > next)
    ensures forall q: Req :: q.valid ==> (q in after <==> q in before && q.ts > next)
  {
    forall q: Req | q.valid ensures q in after <==> q in before && q.ts > next {
      if q in after {
        var k :| 0 <= k < |after| && after[k] == q;
        assert before[k] == q;
      }
      if q in before && q.ts > next {
        var k :| 0 <= k < |before| && before[k] == q;
        assert after[k] == q;
      }
    }
  }

  // ---------------------------------------------------------------- how room is made

  ghost predicate AllTaken(h: seq<Slot>) { forall i :: 0 <= i < |h| ==> h[i].valid }

  /** Every slot holds a version, and one of them is older than every active transaction. */
  ghost predicate Crowded(r: Row, minTs: nat) {
    AllTaken(r.slots) && r.oldestWts < minTs && exists i :: 0 <= i < |r.slots| && r.slots[i].ts < minTs
  }

  /** The newest version below `minTs` has become the base, the slots of all versions up to it are
      free but for a reservation, and all newer ones are where they were. */
  ghost predicate Reclaimed(r: Row, c: Row, minTs: nat) {
    && |c.slots| == |r.slots|
    && c.oldestWts < minTs && (forall j :: 0 <= j < |r.slots| && r.slots[j].ts < minTs ==> r.slots[j].ts <= c.oldestWts)
    && (exists i :: 0 <= i < |r.slots| && r.slots[i].ts == c.oldestWts && r.slots[i].row == At(c.base))
    && (forall j :: 0 <= j < |r.slots| ==>
          if r.slots[j].ts > c.oldestWts then c.slots[j] == r.slots[j]
          else !c.slots[j].valid && (c.slots[j].reserved ==> c.pending && j == c.preId))
  }

  /** A full row gives up, at once, every version that no active transaction can ask for; a row
      that is not full, or has no such version, is left alone. */
  lemma CollectFrees(r: Row, minTs: nat)
    requires StoreOk(r) && !r.pending
    ensures var c := Collect(r, minTs);
            if Crowded(r, minTs) then Reclaimed(r, c, minTs) && (exists j :: 0 <= j < |c.slots| && Free(c.slots[j])) else c == r
  {
    hide NoAlias, Ascending, Newer;
    forall j | 0 <= j < |r.slots| ensures SlotOk(r, j) {}
    var i, c := BestBelow(r.slots, minTs), Collect(r, minTs);
    if Crowded(r, minTs) {
      CrowdedBest(r, minTs, i);
      assert r.slots[i].row == At(c.base);
      assert Free(c.slots[i]);
    }
  }

  lemma CrowdedBest(r: Row, minTs: nat, i: int)
    requires StoreOk(r) && !r.pending && Crowded(r, minTs) && i == BestBelow(r.slots, minTs)
    ensures 0 <= i < |r.slots| && r.slots[i].row.At? && r.numVersions == |r.slots|
    ensures r.oldestWts < r.slots[i].ts < minTs && forall j :: 0 <= j < |r.slots| && r.slots[j].ts < minTs ==> r.slots[j].ts <= r.slots[i].ts
  {
    hide NoAlias, Ascending, Newer, BestBelow;
    forall j | 0 <= j < |r.slots| ensures SlotOk(r, j) && 0 < r.slots[j].ts {}
  }

  /** A slot was free: only it is touched. */
  ghost predicate TookFree(r: Row, p: Row) {
    && |p.slots| == |r.slots| && p.preId < |r.slots| && !r.slots[p.preId].valid
    && p.base == r.base && p.oldestWts == r.oldestWts && p.numVersions == r.numVersions
    && forall j :: 0 <= j < |r.slots| && j != p.preId ==> p.slots[j] == r.slots[j]
  }

  /** The oldest stored version has become the base, and its slot is taken. */
  ghost predicate TookOldest(r: Row, p: Row) {
    && |p.slots| == |r.slots| && p.preId < |r.slots|
    && (forall j :: 0 <= j < |r.slots| ==> r.slots[p.preId].ts <= r.slots[j].ts)
    && r.slots[p.preId].row == At(p.base) && p.oldestWts == r.slots[p.preId].ts && p.numVersions == r.numVersions - 1
    && p.slots[p.preId].row == At(r.base)
    && forall j :: 0 <= j < |r.slots| && j != p.preId ==> p.slots[j] == r.slots[j]
  }

  /** There are twice as many slots, and the first new one is taken. */
  ghost predicate TookNew(r: Row, p: Row) {
    && |p.slots| == 2 * |r.slots| && p.preId == |r.slots|
    && p.base == r.base && p.oldestWts == r.oldestWts && p.numVersions == r.numVersions
    && (forall j :: 0 <= j < |r.slots| ==> p.slots[j] == r.slots[j])
    && forall j :: |r.slots| < j < |p.slots| ==> p.slots[j] == EMPTY
  }

  /** Where a reservation finds its slot: by giving up what nobody can ask for, if the row is full
      and there is such a version; else in a free slot; else by evicting the oldest version, if
      there are as many slots as threads; else in a new slot. */
  ghost predicate MadeRoom(r: Row, p: Row, minTs: nat) {
    if Crowded(r, minTs) then Reclaimed(r, p, minTs)
    else if !AllTaken(r.slots) then TookFree(r, p)
    else if |r.slots| >= r.threads then TookOldest(r, p)
    else TookNew(r, p)
  }

  /** The four ways a reservation finds its slot; it then holds a buffer with a copy of the latest
      version. */
  lemma PromoteMakesRoom(r: Row, ts: nat, minTs: nat)
    requires StoreOk(r) && !r.pending && |r.slots| > 1
    ensures var (p, buf) := Promote(r, ts, minTs);
      && MadeRoom(r, p, minTs)
      && p.pending && p.preTs == ts && p.preId < |p.slots| && p.slots[p.preId] == Slot(false, true, ts, At(buf))
      && buf < |p.mem| && r.all != [] && p.mem[buf] == Last(r.all).value
  {
    hide StoreOk, Collect, Evict, Oldest, Choose, Double, Reclaimed, TookFree, TookOldest, TookNew, AllTaken;
    CollectFrees(r, minTs);
    CollectKeeps(r, minTs);
    RoomKeeps(r, minTs);
    HasLatest(r);
    var c := Collect(r, minTs);
    var (d, i) := Room(r, minTs);
    FreeIsPlaceable(d, i);
    HasRoomLeft(r);
    HasRoomLeft(c);
    LatestIsStored(d);
    if Crowded(r, minTs) {
      PlaceReclaims(r, c, minTs, i, ts);
    } else if c.numVersions < |c.slots| {
      PlaceFree(r, i, ts);
    } else if |c.slots| >= c.threads {
      PlaceOldest(r, ts);
    } else {
      PlaceNew(r, ts);
    }
  }

  lemma LatestIsStored(r: Row)
    requires StoreOk(r)
    ensures r.latestRow < |r.mem| && r.all != [] && r.mem[r.latestRow] == Last(r.all).value
  {
  }

  lemma HasRoomLeft(r: Row)
    requires StoreOk(r)
    ensures r.numVersions < |r.slots| <==> !AllTaken(r.slots)
    ensures r.numVersions <= |r.slots|
    ensures (exists j :: 0 <= j < |r.slots| && Free(r.slots[j])) ==> !AllTaken(r.slots)
  {
  }

  lemma PlaceReclaims(r: Row, c: Row, minTs: nat, i: nat, ts: nat)
    requires Reclaimed(r, c, minTs) && !c.pending && i < |c.slots| && Free(c.slots[i]) && AllTaken(r.slots) && c.latestRow < |c.mem|
    requires c.slots[i].row.At? ==> c.slots[i].row.addr < |c.mem|
    ensures Reclaimed(r, Place(c, i, ts), minTs)
  {
  }

  lemma PlaceFree(r: Row, i: nat, ts: nat)
    requires i < |r.slots| && Free(r.slots[i]) && r.latestRow < |r.mem| && (r.slots[i].row.At? ==> r.slots[i].row.addr < |r.mem|)
    ensures TookFree(r, Place(r, i, ts))
  {
  }

  lemma PlaceOldest(r: Row, ts: nat)
    requires StoreOk(r) && !r.pending && r.numVersions == |r.slots| > 1
    ensures var e, i := Evict(r), Oldest(r.slots);
      && 0 <= i < |e.slots| && e.latestRow < |e.mem| && (e.slots[i].row.At? ==> e.slots[i].row.addr < |e.mem|)
      && TookOldest(r, Place(e, i, ts))
  {
    hide NoAlias, Ascending, Newer;
    EvictGives(r);
    EvictsOldest(r);
    forall j | 0 <= j < |r.slots| ensures SlotOk(r, j) && r.slots[j].valid {}
  }

  lemma PlaceNew(r: Row, ts: nat)
    requires r.slots != [] && r.latestRow < |r.mem|
    ensures TookNew(r, Place(Double(r), |r.slots|, ts))
  {
  }

  // ---------------------------------------------------------------- what is forgotten

  /** Every version a collection leaves remembered keeps its buffer. */
  lemma CollectHolds(r: Row, minTs: nat, v: nat, buf: nat)
    requires StoreOk(r) && !r.pending && Holds(r.slots, r.oldestWts, r.base, v, buf) && Collect(r, minTs).oldestWts <= v
    ensures var c := Collect(r, minTs); Holds(c.slots, c.oldestWts, c.base, v, buf)
  {
    var i, c := BestBelow(r.slots, minTs), Collect(r, minTs);
    if Full(r, minTs, i) {
      assert SlotOk(r, i);
      if j :| 0 <= j < |r.slots| && r.slots[j].valid && r.slots[j].ts == v && r.slots[j].row == At(buf) {
        if i < j { assert r.slots[i].ts != r.slots[j].ts; }
        if j < i { assert r.slots[j].ts != r.slots[i].ts; }
        if j != i { assert c.slots[j] == r.slots[j]; }
      }
    } else {
      assert c == r;
    }
  }

  lemma EvictHolds(r: Row, v: nat, buf: nat)
    requires StoreOk(r) && Holds(r.slots, r.oldestWts, r.base, v, buf)
    requires Oldest(r.slots) >= 0 && r.slots[Oldest(r.slots)].row.At? && r.numVersions > 0 && Evict(r).oldestWts <= v
    ensures var c := Evict(r); Holds(c.slots, c.oldestWts, c.base, v, buf)
  {
    var i, c := Oldest(r.slots), Evict(r);
    assert SlotOk(r, i);
    if j :| 0 <= j < |r.slots| && r.slots[j].valid && r.slots[j].ts == v && r.slots[j].row == At(buf) {
      if i < j { assert r.slots[i].ts != r.slots[j].ts; }
      if j < i { assert r.slots[j].ts != r.slots[i].ts; }
      if j != i { assert c.slots[j] == r.slots[j]; }
    }
  }

  lemma SlotsHold(h: seq<Slot>, g: seq<Slot>, oldestWts: nat, base: nat, v: nat, buf: nat)
    requires Holds(h, oldestWts, base, v, buf) && |h| <= |g| && forall i :: 0 <= i < |h| && h[i].valid ==> g[i] == h[i]
    ensures Holds(g, oldestWts, base, v, buf)
  {
    if !(v == oldestWts && buf == base) {
      var i :| 0 <= i < |h| && h[i].valid && h[i].ts == v && h[i].row == At(buf);
      assert g[i] == h[i];
    }
  }

  /** A reservation touches the buffer of no version that stays remembered. */
  lemma PromoteHolds(r: Row, ts: nat, minTs: nat, v: nat, buf: nat)
    requires StoreOk(r) && !r.pending && |r.slots| > 1 && Holds(r.slots, r.oldestWts, r.base, v, buf)
    requires Promote(r, ts, minTs).0.oldestWts <= v
    ensures var p := Promote(r, ts, minTs).0; Holds(p.slots, p.oldestWts, p.base, v, buf)
  {
    hide StoreOk, Holds, Collect, Evict, BestBelow, Oldest, Choose;
    var (c, i) := Room(r, minTs);
    RoomKeeps(r, minTs);
    RoomHolds(r, minTs, v, buf);
    FreeIsPlaceable(c, i);
    SlotsHold(c.slots, Place(c, i, ts).slots, c.oldestWts, c.base, v, buf);
  }

  lemma FreeIsPlaceable(c: Row, i: int)
    requires StoreOk(c) && 0 <= i < |c.slots|
    ensures c.latestRow < |c.mem| && (c.slots[i].row.At? ==> c.slots[i].row.addr < |c.mem|)
  {
    assert SlotOk(c, i);
  }

  lemma RoomHolds(r: Row, minTs: nat, v: nat, buf: nat)
    requires StoreOk(r) && !r.pending && |r.slots| > 1 && Holds(r.slots, r.oldestWts, r.base, v, buf)
    requires Room(r, minTs).0.oldestWts <= v
    ensures var c := Room(r, minTs).0; Holds(c.slots, c.oldestWts, c.base, v, buf)
  {
    hide Holds, SlotOk, NoAlias;
    CollectKeeps(r, minTs);
    var c := Collect(r, minTs);
    if c.numVersions == |c.slots| >= c.threads { EvictKeeps(c); }
    CollectHolds(r, minTs, v, buf);
    if c.numVersions < |c.slots| {
    } else if |c.slots| >= c.threads {
      assert SlotOk(c, Oldest(c.slots));
      EvictHolds(c, v, buf);
    } else {
      SlotsHold(c.slots, Double(c).slots, c.oldestWts, c.base, v, buf);
    }
  }

  /** Making room by collection or by doubling changes the answer of no lookup at or after
      the smallest active timestamp. */
  lemma CollectKeepsLookups(r: Row, minTs: nat, ts: nat)
    requires StoreOk(r) && !r.pending && Finds(r.slots, ts) && minTs <= ts && r.oldestWts < ts
    ensures var c := Collect(r, minTs);
      && c.oldestWts < ts && OldRow(c, ts) < |c.mem| && OldRow(r, ts) < |r.mem|
      && c.mem[OldRow(c, ts)] == r.mem[OldRow(r, ts)] == ValueAt(r.all, ts - 1)
      && OldRow(Double(c), ts) == OldRow(c, ts)
  {
    hide StoreOk, Collect, Finds, Holds, Double;
    var c := Collect(r, minTs);
    CollectKeeps(r, minTs);
    CollectFinds(r, minTs, ts);
    LookupIsRight(r, ts);
    LookupIsRight(c, ts);
    DoubleKeepsRow(c, ts);
  }

  lemma DoubleKeepsRow(c: Row, ts: nat)
    requires StoreOk(c) && !c.pending
    ensures OldRow(Double(c), ts) == OldRow(c, ts)
  {
    DoubleKeeps(c);
  }

  /** A collection does not make a lookup go wrong. */
  lemma CollectFinds(r: Row, minTs: nat, ts: nat)
    requires StoreOk(r) && !r.pending && Finds(r.slots, ts)
    ensures Finds(Collect(r, minTs).slots, ts)
  {
    var i, c := BestBelow(r.slots, minTs), Collect(r, minTs);
    if Full(r, minTs, i) {
      FullFacts(r, minTs, i);
      forall m, j | Newest(c.slots, ts, m) && m < j && Candidate(c.slots, ts, j) ensures c.slots[j].ts <= c.slots[m].ts % TWO32 {
        assert Candidate(c.slots, ts, m);
        assert Candidate(r.slots, ts, j) && r.slots[m] == c.slots[m] && r.slots[j] == c.slots[j];
        forall k | Candidate(r.slots, ts, k) && k != m ensures r.slots[k].ts < r.slots[m].ts {
          if c.slots[k].valid { assert Candidate(c.slots, ts, k); }
        }
        assert Newest(r.slots, ts, m);
      }
    } else {
      assert c == r;
    }
  }

  /** Only a forced eviction takes a version away from a read that is still active: a
      collection below the smallest active timestamp does not. */
  lemma OnlyEvictionForgets(r: Row, ts: nat, minTs: nat, rts: nat)
    requires StoreOk(r) && !r.pending && |r.slots| > 1 && r.oldestWts < rts && minTs <= rts
    ensures var c := Collect(r, minTs);
            var p := Promote(r, ts, minTs).0;
            p.oldestWts >= rts <==>
              c.numVersions == |c.slots| >= r.threads && Oldest(c.slots) >= 0 && c.slots[Oldest(c.slots)].ts >= rts
  {
    hide SlotOk, NoAlias, Place;
    var c := Collect(r, minTs);
    CollectKeeps(r, minTs);
    var (d, i) := Room(r, minTs);
    RoomKeeps(r, minTs);
    FreeIsPlaceable(d, i);
    assert Promote(r, ts, minTs).0.oldestWts == d.oldestWts by { assert Place(d, i, ts).oldestWts == d.oldestWts by { PlaceKeepsAge(d, i, ts); } }
    if c.numVersions == |c.slots| >= c.threads { EvictKeeps(c); EvictsOldest(c); }
  }

  lemma PlaceKeepsAge(r: Row, i: nat, ts: nat)
    requires i < |r.slots| && r.latestRow < |r.mem| && (r.slots[i].row.At? ==> r.slots[i].row.addr < |r.mem|)
    ensures Place(r, i, ts).oldestWts == r.oldestWts
  {
  }

  lemma EvictsOldest(r: Row)
    requires StoreOk(r) && !r.pending && r.numVersions == |r.slots| > 1
    ensures Oldest(r.slots) >= 0 && Evict(r).oldestWts == r.slots[Oldest(r.slots)].ts
    ensures r.slots[Oldest(r.slots)].row.At?
  {
    assert SlotOk(r, 0) && r.slots[0].valid;
    assert SlotOk(r, Oldest(r.slots));
  }

  /** The reservation behind a forced eviction overwrites the buffer of the version that is
      evicted with a copy of the latest one, under whoever still reads it. */
  lemma EvictOverwrites(r: Row, ts: nat, minTs: nat)
    requires StoreOk(r) && !r.pending && |r.slots| > 1
    requires var c := Collect(r, minTs); c.numVersions == |c.slots| >= r.threads
    ensures var c := Collect(r, minTs);
            var (p, buf) := Promote(r, ts, minTs);
            && Holds(c.slots, c.oldestWts, c.base, c.oldestWts, c.base)
            && buf == c.base < |p.mem| && p.mem[buf] == Last(r.all).value && c.oldestWts < p.oldestWts
  {
    hide StoreOk, Evict, Collect, Oldest;
    var c := Collect(r, minTs);
    CollectKeeps(r, minTs);
    EvictGives(c);
  }

  /** The slot that an eviction frees has the old base as its buffer. */
  lemma EvictGives(c: Row)
    requires StoreOk(c) && !c.pending && c.numVersions == |c.slots| > 1
    ensures var e, i := Evict(c), Oldest(c.slots);
      && 0 <= i < |e.slots| && e.slots[i].row == At(c.base) && c.base < |e.mem| && e.mem == c.mem && e.latestRow < |e.mem|
      && e.latestRow == c.latestRow && c.all != [] && e.mem[e.latestRow] == Last(c.all).value && c.oldestWts < e.oldestWts
  {
    hide SlotOk, NoAlias, Oldest;
    EvictKeeps(c);
    EvictsOldest(c);
  }

  /** A forced eviction may take a version that an active transaction still needs: of the
      reads the row could answer, exactly those before the evicted version's timestamp are
      turned away afterwards, and all others find what they found before. */
  lemma EvictForgets(r: Row, ts: nat, txn: nat)
    requires StoreOk(r) && !r.pending && Finds(r.slots, ts) && r.numVersions == |r.slots| > 1 && r.reqs != []
    requires r.oldestWts < ts <= r.latestWts && (forall k :: 0 <= k < |r.all| ==> r.all[k].ts != ts)
    ensures var c := Evict(r);
      && Read(r, ts, txn).1 == Ok
      && Oldest(r.slots) >= 0 && (Read(c, ts, txn).1 == Abort <==> ts < r.slots[Oldest(r.slots)].ts)
      && (Read(c, ts, txn).1 == Ok ==>
            OldRow(c, ts) < |c.mem| && OldRow(r, ts) < |r.mem| && c.mem[OldRow(c, ts)] == r.mem[OldRow(r, ts)])
  {
    hide Finds, Scan, NoAlias;
    var i, c := Oldest(r.slots), Evict(r);
    EvictKeeps(r);
    EvictsOldest(r);
    LookupIsRight(r, ts);
    assert SlotOk(r, i);
    if ts > c.oldestWts {
      EvictFinds(r, ts);
      LookupIsRight(c, ts);
    } else {
      assert r.all[IndexAt(r.all, r.slots[i].ts)].ts == r.slots[i].ts;
    }
  }

  lemma EvictFinds(r: Row, ts: nat)
    requires StoreOk(r) && !r.pending && r.numVersions == |r.slots| > 1 && Finds(r.slots, ts)
    ensures Finds(Evict(r).slots, ts)
  {
    EvictsOldest(r);
    var i, c := Oldest(r.slots), Evict(r);
    forall m, j | Newest(c.slots, ts, m) && m < j && Candidate(c.slots, ts, j) ensures c.slots[j].ts <= c.slots[m].ts % TWO32 {
      assert Candidate(c.slots, ts, m);
      assert Candidate(r.slots, ts, j) && Candidate(r.slots, ts, m);
      forall k | Candidate(r.slots, ts, k) && k != m ensures r.slots[k].ts < r.slots[m].ts {
        if k == i {
          assert SlotOk(r, i) && SlotOk(r, m);
          if i < m { assert r.slots[i].ts != r.slots[m].ts; } else { assert r.slots[m].ts != r.slots[i].ts; }
        } else {
          assert Candidate(c.slots, ts, k);
        }
      }
      assert Newest(r.slots, ts, m);
    }
  }

  // ---------------------------------------------------------------- whole runs

  /** What can happen to a row.  A commit or a cancellation comes from the transaction whose
      write is pending; `minTs` is what the timestamp manager reports at that moment. */
  datatype Op =
    | ReadOp(ts: nat, txn: nat)
    | PrewriteOp(ts: nat, txn: nat, minTs: nat)
    | FillOp(v: Val)
    | CommitOp(minTs: nat)
    | CancelOp(minTs: nat)

  /** The pending write's buffer. */
  ghost predicate HasBuffer(r: Row) {
    r.pending && r.preId < |r.slots| && r.slots[r.preId].row.At? && r.slots[r.preId].row.addr < |r.mem|
  }

  ghost predicate Step(r: Row, r': Row, op: Op) {
    && r.reqs != [] && r.all != []
    && match op
       case ReadOp(ts, txn) => FreshTs(r, ts) && r' == Read(r, ts, txn).0
       case PrewriteOp(ts, txn, minTs) => FreshTs(r, ts) && r' == Prewrite(r, ts, txn, minTs).0
       case FillOp(v) => HasBuffer(r) && r' == Fill(r, v)
       case CommitOp(minTs) => HasBuffer(r) && r' == Update(Install(r), r.preTs, minTs).0
       case CancelOp(minTs) => HasBuffer(r) && r' == Update(Drop(r), r.preTs, minTs).0
  }

  function InitRow(v: Val, threads: nat): Row {
    Row(0, 0, 0, 0, [EMPTY, EMPTY, EMPTY, EMPTY], 0, false, 0, 0, 0, [NO_REQ, NO_REQ, NO_REQ, NO_REQ],
        [v], threads, [Version(0, v)], {}, {})
  }

  lemma {:induction false} NoneValid(h: seq<Slot>)
    requires forall i :: 0 <= i < |h| ==> !h[i].valid
    ensures CountValid(h) == 0
  {
    if h != [] { NoneValid(h[..|h| - 1]); }
  }

  lemma InitInv(v: Val, threads: nat)
    ensures Inv(InitRow(v, threads))
  {
    NoneValid(InitRow(v, threads).slots);
  }

  lemma StepKeeps(r: Row, r': Row, op: Op)
    requires Inv(r) && Step(r, r', op)
    ensures Inv(r') && r.all <= r'.all && r.served <= r'.served
  {
    hide StoreOk, PendingOk, ReadsOk, UsedOk, ReqsOk;
    match op {
      case ReadOp(ts, txn) => ReadKeeps(r, ts, txn);
      case PrewriteOp(ts, txn, minTs) => PrewriteKeeps(r, ts, txn, minTs);
      case FillOp(v) => FillKeeps(r, v);
      case CommitOp(minTs) =>
        InstallKeeps(r);
        UpdateKeeps(Install(r), r.preTs, minTs);
      case CancelOp(minTs) =>
        DropKeeps(r);
        UpdateKeeps(Drop(r), r.preTs, minTs);
    }
  }

  ghost predicate Run(run: seq<Row>, ops: seq<Op>, v: Val, threads: nat) {
    && run != [] && |ops| == |run| - 1 && run[0] == InitRow(v, threads)
    && forall i :: 0 <= i < |ops| ==> Step(run[i], run[i + 1], ops[i])
  }

  lemma {:induction false} RunInv(run: seq<Row>, ops: seq<Op>, v: Val, threads: nat, i: nat, j: nat)
    requires Run(run, ops, v, threads) && i <= j < |run|
    ensures Inv(run[i]) && Inv(run[j]) && run[i].all <= run[j].all && run[i].served <= run[j].served
    decreases j
  {
    hide Step, Inv;
    if j == 0 {
      InitInv(v, threads);
    } else if i == j {
      RunInv(run, ops, v, threads, i - 1, j - 1);
      StepKeeps(run[j - 1], run[j], ops[j - 1]);
    } else {
      RunInv(run, ops, v, threads, i, j - 1);
      StepKeeps(run[j - 1], run[j], ops[j - 1]);
    }
  }

  /** Timestamp-order safety over whole runs: a version once served to a read at `ts` is the
      newest version below `ts` among all versions ever committed, then and ever after,
      whatever is committed, aborted, collected or evicted in between. */
  lemma ReadsStaySafe(run: seq<Row>, ops: seq<Op>, v: Val, threads: nat, i: nat, j: nat, s: Served)
    requires Run(run, ops, v, threads) && i <= j < |run| && s in run[i].served
    ensures run[i].all != [] && run[j].all != [] && run[i].all <= run[j].all && s.ts > 0
    ensures s.version == Newer(run[i].all, s.ts - 1) == Newer(run[j].all, s.ts - 1)
  {
    RunInv(run, ops, v, threads, i, j);
  }

  /** The buffer handed to a read is where its version is stored in every later state of the
      run, up to the moment the row forgets the version, and no longer. */
  lemma BufferStays(run: seq<Row>, ops: seq<Op>, v: Val, threads: nat, i: nat, j: nat, s: Served)
    requires Run(run, ops, v, threads) && i <= j < |run| && s in run[i].served
    ensures Holds(run[j].slots, run[j].oldestWts, run[j].base, s.version.ts, s.buf) <==> run[j].oldestWts <= s.version.ts
    ensures run[j].oldestWts <= s.version.ts ==> s.buf < |run[j].mem| && run[j].mem[s.buf] == s.version.value
  {
    hide Step;
    RunInv(run, ops, v, threads, i, j);
    ServedValue(run[j], s);
  }

  lemma ServedValue(r: Row, s: Served)
    requires Inv(r) && s in r.served
    ensures Holds(r.slots, r.oldestWts, r.base, s.version.ts, s.buf) <==> r.oldestWts <= s.version.ts
    ensures r.oldestWts <= s.version.ts ==> s.buf < |r.mem| && r.mem[s.buf] == s.version.value
  {
    hide Holds;
    if Holds(r.slots, r.oldestWts, r.base, s.version.ts, s.buf) { HoldsValue(r, s.version.ts, s.buf); }
    Exact(r.all, IndexAt(r.all, s.ts - 1));
  }

  /** The slots are accounted for in every reachable state: the version count is exact, a slot
      is reserved exactly when it holds a version or the one pending write, and that write's
      buffer is neither the latest row nor the base nor the buffer of any version. */
  lemma SlotsAccounted(run: seq<Row>, ops: seq<Op>, v: Val, threads: nat, i: nat)
    requires Run(run, ops, v, threads) && i < |run|
    ensures var r := run[i];
      && r.numVersions == CountValid(r.slots)
      && (forall j :: 0 <= j < |r.slots| ==> (r.slots[j].reserved <==> r.slots[j].valid || (r.pending && j == r.preId)))
      && (r.pending ==> r.preId < |r.slots| && r.slots[r.preId].row.At?
                        && r.slots[r.preId].row.addr != r.latestRow && r.slots[r.preId].row.addr != r.base
                        && forall j :: 0 <= j < |r.slots| && r.slots[j].valid ==> r.slots[j].row != r.slots[r.preId].row)
  {
    RunInv(run, ops, v, threads, i, i);
    var r := run[i];
    forall j | 0 <= j < |r.slots|
      ensures r.slots[j].reserved <==> r.slots[j].valid || (r.pending && j == r.preId)
    {
      assert SlotOk(r, j);
    }
    if r.pending {
      assert SlotOk(r, r.preId);
      forall j | 0 <= j < |r.slots| && r.slots[j].valid ensures r.slots[j].row != r.slots[r.preId].row {
        if j < r.preId { assert r.slots[j].row != r.slots[r.preId].row; } else { assert r.slots[r.preId].row != r.slots[j].row; }
      }
    }
  }

  /** Whatever waits in the buffer of a reachable row waits for a pending write that is
      newer than every version and older than itself. */
  lemma BufferedWait(run: seq<Row>, ops: seq<Op>, v: Val, threads: nat, i: nat, q: Req)
    requires Run(run, ops, v, threads) && i < |run| && q in Live(run[i].reqs)
    ensures run[i].pending && run[i].latestWts < run[i].preTs < q.ts
  {
    RunInv(run, ops, v, threads, i, i);
    LiveHas(run[i].reqs, q);
    var k :| 0 <= k < |run[i].reqs| && run[i].reqs[k] == q;
  }
}
