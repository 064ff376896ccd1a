/** The stored part of a row's version history: an array of slots, some of which hold a
    version, one of which may be reserved for a pending write. */
module MvccHistory {
  import opened Serial
  import opened Versions

  /** A row buffer is named by its index in the memory; NULL is no buffer. */
  datatype Ref = Null | At(addr: nat)

  datatype Slot = Slot(valid: bool, reserved: bool, ts: nat, row: Ref)

  const EMPTY: Slot := Slot(false, false, 0, Null)
  const TWO32: nat := 0x1_0000_0000

  function CountValid(h: seq<Slot>): (n: nat)
    ensures n <= |h|
    ensures n == |h| <==> forall i :: 0 <= i < |h| ==> h[i].valid
  {
    if h == [] then 0 else CountValid(h[..|h| - 1]) + if h[|h| - 1].valid then 1 else 0
  }

  lemma {:induction false} CountUpdate(h: seq<Slot>, i: nat, e: Slot)
    requires i < |h|
    ensures CountValid(h[i := e]) + (if h[i].valid then 1 else 0) == CountValid(h) + (if e.valid then 1 else 0)
  {
    var n := |h| - 1;
    if i < n {
      CountUpdate(h[..n], i, e);
      assert h[i := e][..n] == h[..n][i := e];
    } else {
      assert h[i := e][..n] == h[..n];
    }
  }

  lemma {:induction false} CountPad(h: seq<Slot>, pad: seq<Slot>)
    requires forall i :: 0 <= i < |pad| ==> !pad[i].valid
    ensures CountValid(h + pad) == CountValid(h)
  {
    if pad == [] {
      assert h + pad == h;
    } else {
      var n := |pad| - 1;
      CountPad(h, pad[..n]);
      assert (h + pad)[..|h + pad| - 1] == h + pad[..n];
    }
  }

  // ---------------------------------------------------------------- the lookup

  /** The slot the lookup at `ts` has settled on after scanning `h`, or -1 for none.  The
      source keeps the timestamp of its best candidate in 32 bits. */
  function Scan(h: seq<Slot>, ts: nat): (i: int)
    ensures -1 <= i < |h|
    ensures i >= 0 ==> h[i].valid && h[i].ts < ts
  {
    if h == [] then -1
    else
      var n := |h| - 1;
      var best := Scan(h[..n], ts);
      var bestTs := if best < 0 then 0 else h[best].ts % TWO32;
      if h[n].valid && h[n].ts < ts && h[n].ts > bestTs then n else best
  }

  ghost predicate Candidate(h: seq<Slot>, ts: nat, i: int) {
    0 <= i < |h| && h[i].valid && 0 < h[i].ts < ts
  }

  /** `m` is the newest stored version below `ts`. */
  ghost predicate Newest(h: seq<Slot>, ts: nat, m: int) {
    Candidate(h, ts, m) && forall j :: Candidate(h, ts, j) && j != m ==> h[j].ts < h[m].ts
  }

  /** The lookup finds the newest stored version below `ts` exactly when no later slot
      holds an older version that exceeds the 32-bit remainder of the newest one. */
  lemma {:induction false} ScanFindsNewest(h: seq<Slot>, ts: nat, m: int)
    requires Newest(h, ts, m)
    ensures Scan(h, ts) == m <==> forall j :: m < j && Candidate(h, ts, j) ==> h[j].ts <= h[m].ts % TWO32
  {
    var n := |h| - 1;
    if m == n {
      var best := Scan(h[..n], ts);
      if best >= 0 { assert h[..n][best] == h[best]; }
    } else {
      assert forall j :: Candidate(h[..n], ts, j) <==> Candidate(h, ts, j) && j < n;
      assert Newest(h[..n], ts, m);
      ScanFindsNewest(h[..n], ts, m);
      if Scan(h[..n], ts) == m {
        if Candidate(h, ts, n) && h[n].ts > h[m].ts % TWO32 {
          assert Scan(h, ts) == n;
        } else {
          assert Scan(h, ts) == m;
        }
      } else {
        var j :| m < j && Candidate(h[..n], ts, j) && h[j].ts > h[m].ts % TWO32;
        assert Candidate(h, ts, j);
      }
    }
  }

  /** No stored version misleads the lookup at `ts`: none that comes later in the slots than
      the newest one below `ts` exceeds the 32 bits kept of that one. */
  ghost predicate Finds(h: seq<Slot>, ts: nat) {
    forall m, j :: Newest(h, ts, m) && m < j && Candidate(h, ts, j) ==> h[j].ts <= h[m].ts % TWO32
  }

  lemma FindsMeans(h: seq<Slot>, ts: nat, m: int)
    requires Newest(h, ts, m)
    ensures Finds(h, ts) <==> Scan(h, ts) == m
  {
    ScanFindsNewest(h, ts, m);
  }

  /** With timestamps below 2^32 the lookup is right. */
  lemma NarrowFinds(h: seq<Slot>, ts: nat)
    requires forall i :: 0 <= i < |h| && h[i].valid ==> h[i].ts < TWO32
    ensures Finds(h, ts)
  {
  }

  lemma {:induction false} ScanNone(h: seq<Slot>, ts: nat)
    requires forall j :: !Candidate(h, ts, j)
    ensures Scan(h, ts) == -1
  {
    if h != [] {
      var n := |h| - 1;
      assert forall j :: Candidate(h[..n], ts, j) ==> Candidate(h, ts, j);
      ScanNone(h[..n], ts);
      assert !Candidate(h, ts, n);
    }
  }
}
