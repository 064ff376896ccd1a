/** The lock of one row as a value: who owns it, who waits for it, and what the two lock
    operations do to it under the three locking schemes. */
module LockTable {

  datatype Alg = NoWait | DlDetect | WaitDie

  datatype Mode = None | Sh | Ex

  /** The request of one transaction: its thread, its id, its timestamp, the mode it wants. */
  datatype Entry = Entry(thd: nat, id: nat, ts: nat, mode: Mode)

  /** Owners with the latest first, waiters with the next to be served first. */
  datatype Lock = Lock(owners: seq<Entry>, waiters: seq<Entry>)

  datatype Rc = Ok | Wait | Abort

  function Type(owners: seq<Entry>): Mode {
    if owners == [] then None else owners[0].mode
  }

  predicate Conflict(a: Mode, b: Mode) {
    a != None && b != None && (a == Ex || b == Ex)
  }

  predicate MustWait(alg: Alg, l: Lock, e: Entry) {
    || Conflict(Type(l.owners), e.mode)
    || (alg == WaitDie && l.waiters != [] && e.ts < l.waiters[0].ts)
    || (alg == DlDetect && l.waiters != [])
  }

  /** No owner is older. */
  predicate CanWait(owners: seq<Entry>, e: Entry) {
    forall i :: 0 <= i < |owners| ==> owners[i].ts >= e.ts
  }

  /** Behind every waiter with a later timestamp that comes before the first other one. */
  function Rank(ws: seq<Entry>, ts: nat): (k: nat)
    ensures k <= |ws|
    ensures forall i :: 0 <= i < k ==> ts < ws[i].ts
    ensures k < |ws| ==> ws[k].ts <= ts
  {
    if ws == [] || ws[0].ts <= ts then 0 else 1 + Rank(ws[1..], ts)
  }

  function Get(alg: Alg, l: Lock, e: Entry): (r: (Lock, Rc)) {
    if !MustWait(alg, l, e) then (Lock([e] + l.owners, l.waiters), Ok)
    else match alg
      case NoWait => (l, Abort)
      case DlDetect => (Lock(l.owners, l.waiters + [e]), Wait)
      case WaitDie =>
        if CanWait(l.owners, e)
        then var k := Rank(l.waiters, e.ts); (Lock(l.owners, l.waiters[..k] + [e] + l.waiters[k..]), Wait)
        else (l, Abort)
  }

  /** Every waiter that fits joins the owners, in order. */
  function Grant(l: Lock): (r: Lock)
    decreases |l.waiters|
  {
    if l.waiters == [] || Conflict(Type(l.owners), l.waiters[0].mode) then l
    else Grant(Lock([l.waiters[0]] + l.owners, l.waiters[1..]))
  }

  /** The position of the thread in a list, or the length of the list. */
  function Find(es: seq<Entry>, thd: nat): (k: nat)
    ensures k <= |es|
    ensures forall i :: 0 <= i < k ==> es[i].thd != thd
    ensures k < |es| ==> es[k].thd == thd
  {
    if es == [] || es[0].thd == thd then 0 else 1 + Find(es[1..], thd)
  }

  function Without(es: seq<Entry>, k: nat): seq<Entry>
    requires k < |es|
  {
    es[..k] + es[k + 1..]
  }

  predicate Has(es: seq<Entry>, thd: nat) { Find(es, thd) < |es| }

  function Remove(l: Lock, thd: nat): Lock
    requires Has(l.owners, thd) || Has(l.waiters, thd)
  {
    if Has(l.owners, thd) then Lock(Without(l.owners, Find(l.owners, thd)), l.waiters)
    else Lock(l.owners, Without(l.waiters, Find(l.waiters, thd)))
  }

  function Release(l: Lock, thd: nat): Lock
    requires Has(l.owners, thd) || Has(l.waiters, thd)
  {
    Grant(Remove(l, thd))
  }

  /** The transactions a new waiter is told it waits for: the conflicting waiters, latest
      first, then the owners if they conflict. */
  function Conflicting(es: seq<Entry>, mode: Mode): (r: seq<nat>) {
    if es == [] then []
    else (if Conflict(mode, es[0].mode) then [es[0].id] else []) + Conflicting(es[1..], mode)
  }

  function Reversed(es: seq<Entry>): (r: seq<Entry>)
    ensures |r| == |es|
    ensures forall i :: 0 <= i < |es| ==> r[i] == es[|es| - 1 - i]
  {
    if es == [] then [] else Reversed(es[1..]) + [es[0]]
  }

  function Blockers(l: Lock, e: Entry): seq<nat> {
    Conflicting(Reversed(l.waiters), e.mode) + Conflicting(l.owners, e.mode)
  }

  // ------------------------------------------------------------ what always holds

  ghost predicate Apart(l: Lock) {
    && (forall i, j :: 0 <= i < j < |l.owners| ==> l.owners[i].thd != l.owners[j].thd)
    && (forall i, j :: 0 <= i < j < |l.waiters| ==> l.waiters[i].thd != l.waiters[j].thd)
    && (forall i, j :: 0 <= i < |l.owners| && 0 <= j < |l.waiters| ==> l.owners[i].thd != l.waiters[j].thd)
  }

  /** The owners share the lock, or there is just one. */
  ghost predicate Compatible(l: Lock) {
    && (forall i :: 0 <= i < |l.owners| ==> l.owners[i].mode != None && (l.owners[i].mode == Ex ==> |l.owners| == 1))
    && (forall i :: 0 <= i < |l.waiters| ==> l.waiters[i].mode != None)
  }

  /** The youngest waiter comes first, and every waiter is older than every owner. */
  ghost predicate Aged(l: Lock) {
    && (forall i, j :: 0 <= i < j < |l.waiters| ==> l.waiters[i].ts > l.waiters[j].ts)
    && (forall i, j :: 0 <= i < |l.owners| && 0 <= j < |l.waiters| ==> l.owners[i].ts > l.waiters[j].ts)
  }

  ghost predicate Sound(alg: Alg, l: Lock) {
    && Apart(l) && Compatible(l)
    && (alg == NoWait ==> l.waiters == [])
    && (alg == WaitDie ==> Aged(l))
  }

  ghost predicate Inv(alg: Alg, l: Lock) {
    && Sound(alg, l)
    && (l.waiters != [] ==> Conflict(Type(l.owners), l.waiters[0].mode))
  }

  /** A request by a transaction that has none here yet, with a timestamp of its own. */
  ghost predicate Admissible(alg: Alg, l: Lock, e: Entry) {
    && e.mode != None
    && (forall i :: 0 <= i < |l.owners| ==> l.owners[i].thd != e.thd && (alg == WaitDie ==> l.owners[i].ts != e.ts))
    && (forall i :: 0 <= i < |l.waiters| ==> l.waiters[i].thd != e.thd && (alg == WaitDie ==> l.waiters[i].ts != e.ts))
  }

  lemma OwnKeeps(alg: Alg, l: Lock, e: Entry)
    requires Inv(alg, l) && Admissible(alg, l, e) && !MustWait(alg, l, e)
    ensures Inv(alg, Lock([e] + l.owners, l.waiters))
  {
    var o := [e] + l.owners;
    assert forall i :: 0 < i < |o| ==> o[i] == l.owners[i - 1];
    if alg == WaitDie && l.waiters != [] {
      assert forall j :: 0 <= j < |l.waiters| ==> l.waiters[j].ts <= l.waiters[0].ts;
    }
  }

  lemma InsertedAt(es: seq<Entry>, e: Entry, k: nat)
    requires k <= |es|
    ensures var w := es[..k] + [e] + es[k..];
      && |w| == |es| + 1
      && forall i :: 0 <= i < |w| ==> w[i] == if i < k then es[i] else if i == k then e else es[i - 1]
  {
  }

  lemma QueueApart(alg: Alg, l: Lock, e: Entry, k: nat)
    requires Apart(l) && Compatible(l) && Admissible(alg, l, e) && k <= |l.waiters|
    ensures var m := Lock(l.owners, l.waiters[..k] + [e] + l.waiters[k..]); Apart(m) && Compatible(m)
  {
    hide Conflict;
    InsertedAt(l.waiters, e, k);
    var w := l.waiters[..k] + [e] + l.waiters[k..];
    forall i | 0 <= i < |w| ensures w[i].mode != None && (w[i] == e || w[i] in l.waiters) {}
  }

  lemma QueueKeeps(alg: Alg, l: Lock, e: Entry, k: nat)
    requires Inv(alg, l) && Admissible(alg, l, e) && alg != NoWait && k <= |l.waiters|
    requires k == 0 ==> Conflict(Type(l.owners), e.mode)
    requires alg == WaitDie ==> k == Rank(l.waiters, e.ts) && CanWait(l.owners, e)
    ensures Inv(alg, Lock(l.owners, l.waiters[..k] + [e] + l.waiters[k..]))
  {
    hide Apart, Compatible, Aged, Conflict, Rank, CanWait;
    InsertedAt(l.waiters, e, k);
    QueueApart(alg, l, e, k);
    if alg == WaitDie {
      QueueAged(l, e, k);
    }
  }

  /** Where a new waiter goes, all behind it are older and all before it younger. */
  lemma RankSplits(ws: seq<Entry>, ts: nat)
    requires forall i, j :: 0 <= i < j < |ws| ==> ws[i].ts > ws[j].ts
    requires forall i :: 0 <= i < |ws| ==> ws[i].ts != ts
    ensures forall i :: 0 <= i < |ws| ==> if i < Rank(ws, ts) then ws[i].ts > ts else ws[i].ts < ts
  {
    var k := Rank(ws, ts);
    forall i | 0 <= i < |ws| ensures if i < k then ws[i].ts > ts else ws[i].ts < ts {
      if i > k { assert ws[k].ts > ws[i].ts; }
    }
  }

  lemma QueueAged(l: Lock, e: Entry, k: nat)
    requires Aged(l) && Admissible(WaitDie, l, e) && k == Rank(l.waiters, e.ts) && CanWait(l.owners, e)
    ensures Aged(Lock(l.owners, l.waiters[..k] + [e] + l.waiters[k..]))
  {
    hide Rank, Conflict;
    var ws := l.waiters;
    RankSplits(ws, e.ts);
    var w := ws[..k] + [e] + ws[k..];
    assert forall i :: 0 <= i < |w| ==> w[i] == if i < k then ws[i] else if i == k then e else ws[i - 1];
    forall i, j | 0 <= i < |l.owners| && 0 <= j < |w| ensures l.owners[i].ts > w[j].ts {
      if j == k {
        assert l.owners[i].ts >= e.ts && l.owners[i].ts != e.ts;
      } else {
        assert l.owners[i].ts > ws[if j < k then j else j - 1].ts;
      }
    }
    forall i, j | 0 <= i < j < |w| ensures w[i].ts > w[j].ts {
      if i < k && j <= k {
      } else if i < k {
        assert ws[i].ts > ws[j - 1].ts;
      } else if i > k {
        assert ws[i - 1].ts > ws[j - 1].ts;
      }
    }
  }

  lemma GetKeeps(alg: Alg, l: Lock, e: Entry)
    requires Inv(alg, l) && Admissible(alg, l, e)
    ensures Inv(alg, Get(alg, l, e).0)
  {
    if !MustWait(alg, l, e) {
      OwnKeeps(alg, l, e);
    } else if alg == DlDetect {
      assert l.waiters[..|l.waiters|] + [e] + l.waiters[|l.waiters|..] == l.waiters + [e];
      QueueKeeps(alg, l, e, |l.waiters|);
    } else if alg == WaitDie && CanWait(l.owners, e) {
      QueueKeeps(alg, l, e, Rank(l.waiters, e.ts));
    }
  }

  // ------------------------------------------------------------ the answers, mode by mode

  ghost predicate Shared(es: seq<Entry>) { forall i :: 0 <= i < |es| ==> es[i].mode == Sh }

  /** Who becomes an owner at once: nobody owns the row, or readers do and another one comes; and
      under deadlock detection nobody waits, under WAIT_DIE nobody younger heads the waiters. */
  ghost predicate AtOnce(alg: Alg, l: Lock, e: Entry) {
    && (l.owners == [] || (e.mode == Sh && Shared(l.owners)))
    && (alg == DlDetect ==> l.waiters == [])
    && (alg == WaitDie && l.waiters != [] ==> l.waiters[0].ts <= e.ts)
  }

  ghost predicate NoOwnerOlder(l: Lock, e: Entry) { forall i :: 0 <= i < |l.owners| ==> e.ts <= l.owners[i].ts }

  /** The new waiter is at position `k`: at the end, or under WAIT_DIE behind exactly the younger
      ones that come first. */
  ghost predicate QueuedAt(alg: Alg, l: Lock, l': Lock, e: Entry, k: nat) {
    && k <= |l.waiters| && l' == Lock(l.owners, l.waiters[..k] + [e] + l.waiters[k..])
    && (alg == DlDetect ==> k == |l.waiters|)
    && (alg == WaitDie ==> (forall i :: 0 <= i < k ==> e.ts < l.waiters[i].ts) && (k < |l.waiters| ==> l.waiters[k].ts <= e.ts))
  }

  /** Exactly when a request is granted, told to wait or refused, and what becomes of the lock. */
  lemma GetAnswers(alg: Alg, l: Lock, e: Entry)
    requires Compatible(l) && e.mode != None
    ensures var rc := Get(alg, l, e).1;
      && (rc == Ok <==> AtOnce(alg, l, e))
      && (rc == Wait <==> !AtOnce(alg, l, e) && (alg == DlDetect || (alg == WaitDie && NoOwnerOlder(l, e))))
      && (rc == Abort <==> !AtOnce(alg, l, e) && (alg == NoWait || (alg == WaitDie && !NoOwnerOlder(l, e))))
    ensures var (l', rc) := Get(alg, l, e);
      && (rc == Ok ==> l' == Lock([e] + l.owners, l.waiters))
      && (rc == Abort ==> l' == l)
      && (rc == Wait ==> exists k :: QueuedAt(alg, l, l', e, k))
  {
    hide Rank;
    assert !Conflict(Type(l.owners), e.mode) <==> l.owners == [] || (e.mode == Sh && Shared(l.owners)) by {
      if l.owners != [] && l.owners[0].mode == Sh { OneIsAll(l); }
    }
    var (l', rc) := Get(alg, l, e);
    if rc == Wait {
      var k := if alg == DlDetect then |l.waiters| else Rank(l.waiters, e.ts);
      assert QueuedAt(alg, l, l', e, k);
    }
  }

  /** One reader among the owners means that all are. */
  lemma OneIsAll(l: Lock)
    requires Compatible(l) && exists i :: 0 <= i < |l.owners| && l.owners[i].mode == Sh
    ensures Shared(l.owners)
  {
  }

  lemma SharedTail(e: Entry, es: seq<Entry>)
    ensures Shared([e] + es) <==> e.mode == Sh && Shared(es)
  {
    var all := [e] + es;
    assert all[0] == e;
    forall i | 0 <= i < |es| ensures es[i] == all[i + 1] {}
  }

  /** A release lets in as many waiters as fit: the next one is blocked by the modes, and readers at
      the head all join when no writer owns the row. */
  lemma {:induction false} GrantTakes(l: Lock) returns (n: nat)
    requires Compatible(l)
    ensures n <= |l.waiters| && Grant(l).waiters == l.waiters[n..] && Compatible(Grant(l))
    ensures forall e :: e in Grant(l).owners <==> e in l.owners || e in l.waiters[..n]
    ensures n < |l.waiters| ==> Grant(l).owners != [] && (l.waiters[n].mode == Ex || !Shared(Grant(l).owners))
    ensures forall m :: 0 <= m <= |l.waiters| && Shared(l.owners) && Shared(l.waiters[..m]) ==> m <= n
    decreases |l.waiters|
  {
    if l.waiters == [] || Conflict(Type(l.owners), l.waiters[0].mode) {
      n := 0;
      if l.waiters != [] {
        assert l.owners[0].mode == Ex || l.waiters[0].mode == Ex;
        forall m | 0 < m <= |l.waiters| && Shared(l.owners) ensures !Shared(l.waiters[..m]) { assert l.waiters[..m][0] == l.waiters[0]; }
      }
    } else {
      hide Conflict, Type;
      var m := AdmitNext(l);
      n := m + 1;
    }
  }

  lemma {:induction false} AdmitNext(l: Lock) returns (m: nat)
    requires Compatible(l) && l.waiters != [] && !Conflict(Type(l.owners), l.waiters[0].mode)
    ensures m < |l.waiters| && Grant(l).waiters == l.waiters[m + 1..] && Compatible(Grant(l))
    ensures forall e :: e in Grant(l).owners <==> e in l.owners || e in l.waiters[..m + 1]
    ensures m + 1 < |l.waiters| ==> Grant(l).owners != [] && (l.waiters[m + 1].mode == Ex || !Shared(Grant(l).owners))
    ensures forall k :: 0 <= k <= |l.waiters| && Shared(l.owners) && Shared(l.waiters[..k]) ==> k <= m + 1
    decreases |l.waiters|, 0
  {
    var l' := Lock([l.waiters[0]] + l.owners, l.waiters[1..]);
    assert Compatible(l');
    m := GrantTakes(l');
    assert l.waiters[..m + 1] == [l.waiters[0]] + l'.waiters[..m];
    forall k | 0 < k <= |l.waiters| && Shared(l.owners) && Shared(l.waiters[..k]) ensures k <= m + 1 {
      assert l.waiters[..k] == [l.waiters[0]] + l'.waiters[..k - 1];
      SharedTail(l.waiters[0], l'.waiters[..k - 1]);
      SharedTail(l.waiters[0], l.owners);
    }
  }

  lemma AdmitSound(alg: Alg, l: Lock)
    requires Sound(alg, l) && l.waiters != [] && !Conflict(Type(l.owners), l.waiters[0].mode)
    ensures Sound(alg, Lock([l.waiters[0]] + l.owners, l.waiters[1..]))
  {
  }

  /** Every entry of the lock that is not the removed one keeps its place or moves from the
      waiters to the owners; the waiters that stay are the last ones. */
  lemma {:induction false} GrantKeeps(alg: Alg, l: Lock) returns (n: nat)
    requires Sound(alg, l)
    ensures Inv(alg, Grant(l))
    ensures n <= |l.waiters| && Grant(l).waiters == l.waiters[n..]
    ensures Grant(l).owners == Reversed(l.waiters[..n]) + l.owners
    decreases |l.waiters|
  {
    if l.waiters == [] || Conflict(Type(l.owners), l.waiters[0].mode) {
      n := 0;
    } else {
      var l' := Lock([l.waiters[0]] + l.owners, l.waiters[1..]);
      AdmitSound(alg, l);
      var m := GrantKeeps(alg, l');
      n := m + 1;
      assert l.waiters[..n][1..] == l'.waiters[..m] && l.waiters[..n][0] == l.waiters[0];
    }
  }

  lemma RemoveOwnerSound(alg: Alg, l: Lock, k: nat)
    requires Sound(alg, l) && k < |l.owners|
    ensures Sound(alg, Lock(Without(l.owners, k), l.waiters))
  {
    var o := Without(l.owners, k);
    assert forall i :: 0 <= i < |o| ==> o[i] == if i < k then l.owners[i] else l.owners[i + 1];
  }

  lemma WithoutAt(es: seq<Entry>, k: nat)
    requires k < |es|
    ensures |Without(es, k)| == |es| - 1
    ensures forall i :: 0 <= i < |es| - 1 ==> Without(es, k)[i] == if i < k then es[i] else es[i + 1]
  {
  }

  lemma RemoveWaiterApart(l: Lock, k: nat)
    requires Apart(l) && k < |l.waiters|
    ensures Apart(Lock(l.owners, Without(l.waiters, k)))
  {
    var w := Without(l.waiters, k);
    WithoutAt(l.waiters, k);
  }

  lemma RemoveWaiterAged(l: Lock, k: nat)
    requires Aged(l) && k < |l.waiters|
    ensures Aged(Lock(l.owners, Without(l.waiters, k)))
  {
    var w := Without(l.waiters, k);
    WithoutAt(l.waiters, k);
  }

  lemma RemoveWaiterSound(alg: Alg, l: Lock, k: nat)
    requires Sound(alg, l) && k < |l.waiters|
    ensures Sound(alg, Lock(l.owners, Without(l.waiters, k)))
  {
    hide Apart, Aged;
    var w := Without(l.waiters, k);
    WithoutAt(l.waiters, k);
    RemoveWaiterApart(l, k);
    if alg == WaitDie { RemoveWaiterAged(l, k); }
  }

  lemma RemoveSound(alg: Alg, l: Lock, thd: nat)
    requires Sound(alg, l) && (Has(l.owners, thd) || Has(l.waiters, thd))
    ensures Sound(alg, Remove(l, thd))
  {
    hide Sound;
    if Has(l.owners, thd) {
      RemoveOwnerSound(alg, l, Find(l.owners, thd));
    } else {
      RemoveWaiterSound(alg, l, Find(l.waiters, thd));
    }
  }

  lemma {:induction false} ConflictingHas(es: seq<Entry>, mode: Mode, id: nat)
    ensures id in Conflicting(es, mode) <==> exists i :: 0 <= i < |es| && es[i].id == id && Conflict(mode, es[i].mode)
  {
    if es != [] {
      ConflictingHas(es[1..], mode, id);
      if i :| 0 <= i < |es| && es[i].id == id && Conflict(mode, es[i].mode) {
        if i > 0 { assert es[1..][i - 1] == es[i]; }
      }
      if i :| 0 <= i < |es[1..]| && es[1..][i].id == id && Conflict(mode, es[1..][i].mode) {
        assert es[i + 1] == es[1..][i];
      }
    }
  }

  /** `e` conflicts with an owner or one of the first `n` waiters, whose transaction is `id`. */
  ghost predicate BlockedBy(l: Lock, n: nat, mode: Mode, id: nat)
    requires n <= |l.waiters|
  {
    || (exists i :: 0 <= i < |l.owners| && l.owners[i].id == id && Conflict(mode, l.owners[i].mode))
    || (exists i :: 0 <= i < n && l.waiters[i].id == id && Conflict(mode, l.waiters[i].mode))
  }

  /** The recorded blockers are exactly the conflicting owners and earlier waiters. */
  lemma BlockersAreExact(l: Lock, e: Entry, id: nat)
    ensures id in Blockers(l, e) <==> BlockedBy(l, |l.waiters|, e.mode, id)
  {
    ConflictingHas(l.owners, e.mode, id);
    ConflictingHas(Reversed(l.waiters), e.mode, id);
    var r := Reversed(l.waiters);
    if i :| 0 <= i < |r| && r[i].id == id && Conflict(e.mode, r[i].mode) {
      assert l.waiters[|r| - 1 - i] == r[i];
    }
    if i :| 0 <= i < |l.waiters| && l.waiters[i].id == id && Conflict(e.mode, l.waiters[i].mode) {
      assert r[|r| - 1 - i] == l.waiters[i];
    }
  }

  /** Whoever waits behind the head is blocked by an owner or by the head. */
  lemma WaiterIsBlocked(alg: Alg, l: Lock, k: nat) returns (id: nat)
    requires Inv(alg, l) && k < |l.waiters|
    ensures BlockedBy(l, k, l.waiters[k].mode, id)
  {
    var w := l.waiters[k];
    if Conflict(w.mode, l.owners[0].mode) { id := l.owners[0].id; } else { id := l.waiters[0].id; }
  }

  /** A new waiter of the deadlock-detecting scheme always has somebody to wait for. */
  lemma BlockersNotEmpty(l: Lock, e: Entry)
    requires Inv(DlDetect, l) && Admissible(DlDetect, l, e) && Get(DlDetect, l, e).1 == Wait
    ensures Blockers(l, e) != []
  {
    GetKeeps(DlDetect, l, e);
    var l' := Get(DlDetect, l, e).0;
    var id := WaiterIsBlocked(DlDetect, l', |l.waiters|);
    BlockersAreExact(l, e, id);
  }
}
