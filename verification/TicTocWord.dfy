/** The packed timestamp word of a TicToc row: one lock bit, a 15-bit lease length and a
    48-bit write timestamp in 64 bits. */
module TicTocWord {
  import opened Bits

  const TWO15: nat := 0x8000
  const TWO48: nat := 0x1_0000_0000_0000
  const TWO63: nat := 0x8000_0000_0000_0000
  const TWO64: nat := 0x1_0000_0000_0000_0000

  /** What the word says. */
  datatype Word = Word(locked: bool, wts: nat, delta: nat) {
    function Rts(): nat { wts + delta }
    predicate Fits() { wts < TWO48 && delta < TWO15 }
  }

  /** The word as it is stored. */
  function Pack(w: Word): (v: nat)
    requires w.Fits()
    ensures v < TWO64
  {
    (if w.locked then TWO63 else 0) + w.delta * TWO48 + w.wts
  }

  function Unpack(v: nat): (w: Word)
    requires v < TWO64
    ensures w.Fits()
  {
    Word(v / TWO63 == 1, v % TWO48, v / TWO48 % TWO15)
  }

  lemma PackIsLossless(w: Word)
    requires w.Fits()
    ensures Unpack(Pack(w)) == w
  {
    var v := Pack(w);
    assert v / TWO48 == w.delta + if w.locked then TWO15 else 0;
  }

  lemma UnpackIsLossless(v: nat)
    requires v < TWO64
    ensures Pack(Unpack(v)) == v
  {
    assert v / TWO63 == v / TWO48 / TWO15;
  }

  // ---------------------------------------------------------------- the masks of the source

  const RTS_LEN: nat := 15
  const WTS_LEN: nat := 48
  const LOCK_BIT: nat := 0x8000_0000_0000_0000
  const RTS_MASK: nat := 0x7FFF_0000_0000_0000
  const WTS_MASK: nat := 0x0000_FFFF_FFFF_FFFF

  /** The complement of a 64-bit word. */
  function Not(v: nat): nat
    requires v < TWO64
  {
    TWO64 - 1 - v
  }

  lemma Powers()
    ensures Pow2(1) == 2 && Pow2(15) == TWO15 && Pow2(48) == TWO48 && Pow2(49) == 2 * TWO48 && Pow2(63) == TWO63
    ensures Shl(1, 63) == LOCK_BIT && Shl(TWO15 - 1, 48) == RTS_MASK
  {
    assert Pow2(15) == TWO15;
    PowAdd(15, 15);
    PowAdd(30, 15);
    PowAdd(45, 3);
    PowAdd(48, 1);
    PowAdd(48, 15);
    ShlIs(1, 63);
    ShlIs(TWO15 - 1, 48);
  }

  lemma ShiftIs(v: nat, n: nat, d: nat)
    requires Pow2(n) == d && (d == 2 || d == TWO15 || d == TWO48 || d == TWO63)
    ensures Shr(v, n) == v / d && Low(v, n) == v % d
  {
    hide Shl, Shr, Low, Pow2;
    Parts(v, n);
    ShlIs(Shr(v, n), n);
  }

  /** Taking the word apart with the masks. */
  lemma MasksUnpack(v: nat)
    requires v < TWO64
    ensures And(v, LOCK_BIT) != 0 <==> Unpack(v).locked
    ensures And(v, WTS_MASK) == Unpack(v).wts
    ensures Shr(And(v, RTS_MASK), WTS_LEN) == Unpack(v).delta
  {
    hide And, Shl, Shr, Low, Pow2;
    Powers();
    AndDigit(v, 63, 1);
    ShiftIs(v, 63, TWO63);
    ShiftIs(v / TWO63, 1, 2);
    ShlIs(v / TWO63 % 2, 63);
    AndOnes(v, 48);
    ShiftIs(v, 48, TWO48);
    AndDigit(v, 48, 15);
    ShiftIs(v / TWO48, 15, TWO15);
  }

  /** try_lock: setting the lock bit of an unlocked word. */
  lemma MaskLocks(v: nat)
    requires v < TWO64 && !Unpack(v).locked
    ensures Or(v, LOCK_BIT) == Pack(Unpack(v).(locked := true))
  {
    hide Or, Shl, Pow2;
    Powers();
    OrParts(1, v, 63);
    UnpackIsLossless(v);
  }

  /** release: clearing it. */
  lemma MaskUnlocks(v: nat)
    requires v < TWO64
    ensures And(v, Not(LOCK_BIT)) == Pack(Unpack(v).(locked := false))
  {
    hide And, Low, Pow2;
    Powers();
    AndOnes(v, 63);
    ShiftIs(v, 63, TWO63);
    UnpackIsLossless(v);
  }

  lemma ClearsTs(v: nat)
    requires v < TWO64
    ensures Or(RTS_MASK, WTS_MASK) < TWO64
    ensures And(v, Not(Or(RTS_MASK, WTS_MASK))) == Shl(v / TWO63, 63) == v / TWO63 * TWO63
  {
    hide And, Or, Shl, Shr, Low, Pow2;
    Powers();
    OrParts(TWO15 - 1, WTS_MASK, 48);
    assert Not(Or(RTS_MASK, WTS_MASK)) == LOCK_BIT;
    AndDigit(v, 63, 1);
    ShiftIs(v, 63, TWO63);
    ShiftIs(v / TWO63, 1, 2);
    ShlIs(v / TWO63, 63);
  }

  /** write_data: both timestamps are replaced, the lock bit stays. */
  lemma MaskStores(v: nat, wts: nat)
    requires v < TWO64 && wts < TWO48
    ensures Or(RTS_MASK, WTS_MASK) < TWO64
    ensures Or(And(v, Not(Or(RTS_MASK, WTS_MASK))), wts) == Pack(Word(Unpack(v).locked, wts, 0))
  {
    hide And, Or, Shl, Pow2;
    Powers();
    ClearsTs(v);
    OrParts(v / TWO63, wts, 63);
  }

  /** try_renew: the renewed word is put together from its two timestamps. */
  lemma MaskRenews(wts: nat, delta: nat)
    requires wts < TWO48 && delta < TWO15
    ensures Or(Or(0, wts), Shl(delta, WTS_LEN)) == Pack(Word(false, wts, delta))
  {
    hide Or, Shl, Pow2;
    Powers();
    Zero(wts);
    OrParts(delta, wts, 48);
    ShlIs(delta, 48);
  }

  /** A lease longer than 15 bits is split at the 15th. */
  lemma MaskSplits(delta: nat)
    requires delta < TWO64
    ensures And(delta, TWO15 - 1) == delta % TWO15 && And(delta, Not(TWO15 - 1)) == delta - delta % TWO15
  {
    hide And, Low, Shl, Shr, Pow2;
    Powers();
    AndOnes(delta, 15);
    ShiftIs(delta, 15, TWO15);
    AndRest(delta);
  }

  lemma AndRest(delta: nat)
    requires delta < TWO64
    ensures And(delta, Not(TWO15 - 1)) == delta - delta % TWO15
  {
    hide And, Low, Shl, Shr, Pow2;
    Powers();
    var high := delta / TWO15;
    ShiftIs(delta, 15, TWO15);
    AndDigit(delta, 15, 49);
    ShlIs(Pow2(49) - 1, 15);
    PartsAre(0, high, 49);
    ShlIs(0, 49);
    ShlIs(high, 15);
  }

  /** access: the test after the copy ignores the lease, and nothing else. */
  lemma MaskCompares(v: nat, w: nat)
    requires v < TWO64 && w < TWO64
    ensures Or(v, RTS_MASK) == Or(w, RTS_MASK) <==> Unpack(v).locked == Unpack(w).locked && Unpack(v).wts == Unpack(w).wts
  {
    hide Or, Shl, Shr, Low, Pow2;
    Masked(v);
    Masked(w);
  }

  lemma Masked(v: nat)
    requires v < TWO64
    ensures Or(v, RTS_MASK) == v / TWO63 * TWO63 + RTS_MASK + v % TWO48
  {
    hide Or, Shl, Shr, Low, Pow2;
    Powers();
    OrDigit(v, 48, 15);
    ShiftIs(v, 48, TWO48);
    ShiftIs(v / TWO48, 15, TWO15);
    var high := v / TWO48 / TWO15;
    assert high == v / TWO63;
    ShlIs(high, 15);
    ShlIs(high * TWO15 + (TWO15 - 1), 48);
  }

  /** What a renewal decides after loading the word. */
  datatype Plan = Done(ok: bool) | Swap(want: Word, rebase: bool)

  /** The renewal of a lease on the version `wts` up to `rts`, from the word `v` it loaded.
      A lease longer than 15 bits moves the write timestamp forward, by whole multiples of 2^15.
      A planned swap asks for exactly the requested lease, never moves the write timestamp
      backwards, never shortens the lease it saw, and fits the 15 bits, whatever the gap. */
  function Renewal(v: Word, wts: nat, rts: nat): (p: Plan)
    ensures wts <= rts ==>
              && (p == Done(true) ==> v.wts == wts && v.Rts() >= rts)
              && (p == Done(false) ==> (v.locked || v.wts != wts) && !(v.wts == wts && v.Rts() >= rts))
              && (p.Swap? ==> !v.locked && v.wts == wts && !p.want.locked
                              && v.wts <= p.want.wts <= rts && p.want.delta < TWO15
                              && p.want.Rts() == rts && v.Rts() < rts
                              && (p.want.wts - wts) % TWO15 == 0
                              && (p.rebase <==> p.want.wts != wts))
  {
    var delta := if wts <= rts then rts - wts else (rts - wts) % TWO64;
    if v.wts == wts && v.delta >= delta then Done(true)
    else if v.locked then Done(false)
    else if v.wts != wts then Done(false)
    else if delta < v.delta then Done(true)
    else if delta >= TWO15 then
      Swap(Word(false, wts + (delta - delta % TWO15), delta % TWO15), true)
    else Swap(Word(false, wts, delta), false)
  }

  /** What the renewal decides when its compare-and-swap found `v` instead: another `Swap`
      means that it tries again, now expecting `v`, with the word it had computed before. */
  function Retry(v: Word, want: Word, rebase: bool, rts: nat): (p: Plan) {
    if rebase || v.locked || want.wts != v.wts then Done(false)
    else if rts < v.delta then Done(true)
    else Swap(want, rebase)
  }

  /** Trying again can take a lease back: the new word is compared with an absolute
      timestamp where a lease length is meant.  Exactly when the lease that was found ends
      after the requested end, but by no more than the version's own timestamp. */
  lemma RetryShortensWhen(v0: Word, wts: nat, rts: nat, v: Word)
    requires wts <= rts && Renewal(v0, wts, rts).Swap?
    ensures var first := Renewal(v0, wts, rts);
            var p := Retry(v, first.want, first.rebase, rts);
            p.Swap? && p.want.Rts() < v.Rts() <==>
            !first.rebase && !v.locked && v.wts == wts && rts < v.Rts() <= rts + wts
  {
  }

  /** A lease up to 18 that somebody was granted is cut back to 15, so a later writer may
      choose the commit timestamp 16. */
  lemma RetryShortens()
    ensures var first := Renewal(Word(false, 10, 3), 10, 15);
            && first.Swap?
            && Retry(Word(false, 10, 8), first.want, first.rebase, 15) == Swap(Word(false, 10, 5), false)
            && Word(false, 10, 5).Rts() + 1 == 16 <= Word(false, 10, 8).Rts() == 18
  {
  }
}
