/** The manager of one TicToc row: operations on the packed word and the row's data, in
    place.  How they interleave with those of other threads is the business of TicToc. */
module RowTicToc {
  import opened Bits
  import opened TicTocWord

  class RowTicToc {
    var tsWord: nat
    const data: array<int>

    ghost predicate Valid()
      reads this
    {
      tsWord < TWO64
    }

    ghost function Model(): Word
      requires Valid()
      reads this
    {
      Unpack(tsWord)
    }

    constructor (data: array<int>)
      ensures Valid() && Model() == Word(false, 0, 0) && this.data == data
    {
      this.data := data;
      tsWord := 0;
    }

    method GetTsWord() returns (lock: bool, rts: nat, wts: nat)
      requires Valid()
      ensures wts <= rts && Model() == Word(lock, wts, rts - wts)
    {
      hide And, Shr;
      MasksUnpack(tsWord);
      lock := And(tsWord, LOCK_BIT) != 0;
      wts := And(tsWord, WTS_MASK);
      rts := Shr(And(tsWord, RTS_MASK), WTS_LEN) + And(tsWord, WTS_MASK);
    }

    /** Taking the lock changes nothing else; a locked word is left alone. */
    method TryLock() returns (ok: bool)
      requires Valid()
      modifies this
      ensures Valid()
      ensures ok == !old(Model()).locked
      ensures Model() == old(Model()).(locked := true)
    {
      hide And, Or;
      MasksUnpack(tsWord);
      if And(tsWord, LOCK_BIT) != 0 { return false; }
      MaskLocks(tsWord);
      PackIsLossless(Model().(locked := true));
      tsWord := Or(tsWord, LOCK_BIT);
      ok := true;
    }

    method Release()
      requires Valid()
      modifies this
      ensures Valid() && Model() == old(Model()).(locked := false)
    {
      hide And;
      MaskUnlocks(tsWord);
      PackIsLossless(Model().(locked := false));
      tsWord := And(tsWord, Not(LOCK_BIT));
    }

    /** Installing a version: the lease of the new version is empty, the lock is kept. */
    method WriteData(src: array<int>, wts: nat)
      requires Valid() && wts < TWO48 && src != data && src.Length == data.Length
      modifies this, data
      ensures Valid() && Model() == Word(old(Model()).locked, wts, 0) && Model().Rts() == wts
      ensures data[..] == src[..]
    {
      hide And, Or, Unpack;
      MaskStores(tsWord, wts);
      PackIsLossless(Word(Model().locked, wts, 0));
      var v := And(tsWord, Not(Or(RTS_MASK, WTS_MASK)));
      v := Or(v, wts);
      tsWord := v;
      for k := 0 to data.Length
        invariant tsWord == v && data[..k] == src[..k]
      {
        data[k] := src[k];
      }
      assert data[..data.Length] == data[..] && src[..src.Length] == src[..];
    }

    /** Renewing a lease without interference: the compare-and-swap finds the word that was
        loaded, but may fail `spurious` times all the same.  Either the word is untouched, and
        then success means that it covers the lease already; or it is unlocked and holds
        exactly the requested lease. */
    method TryRenew(wts: nat, rts: nat, spurious: nat) returns (ok: bool)
      requires Valid() && wts <= rts < TWO48
      modifies this
      ensures Valid()
      ensures var p := Renewal(old(Model()), wts, rts);
              if p.Done? then ok == p.ok && tsWord == old(tsWord)
              else if p.rebase && spurious > 0 then !ok && tsWord == old(tsWord)
              else ok && Model() == p.want
      ensures ok ==> Model().Rts() >= rts && old(Model()).wts == wts <= Model().wts <= rts
      ensures ok && tsWord != old(tsWord) ==> !Model().locked && Model().Rts() == rts && old(Model()).Rts() < rts
    {
      hide And, Or, Shr, Shl, Unpack, Pack;
      var v := tsWord;
      MasksUnpack(v);
      if And(v, WTS_MASK) == wts && Shr(And(v, RTS_MASK), WTS_LEN) >= rts - wts { return true; }
      if And(v, LOCK_BIT) != 0 { return false; }
      if wts != And(v, WTS_MASK) { return false; }
      var deltaRts := rts - wts;
      if deltaRts < Shr(And(v, RTS_MASK), WTS_LEN) { return true; }
      var rebase, base := false, wts;
      MaskSplits(deltaRts);
      if deltaRts >= TWO15 {
        rebase := true;
        var delta := And(deltaRts, Not(TWO15 - 1));
        deltaRts := And(deltaRts, TWO15 - 1);
        base := base + delta;
      }
      MaskRenews(base, deltaRts);
      PackIsLossless(Word(false, base, deltaRts));
      var v2 := Or(Or(0, base), Shl(deltaRts, WTS_LEN));
      var left := spurious;
      while left > 0
        invariant tsWord == v == old(tsWord)
        invariant rebase ==> left == spurious
      {
        left := left - 1;
        if rebase || And(v, LOCK_BIT) != 0 || base != And(v, WTS_MASK) {
          return false;
        } else if rts < Shr(And(v, RTS_MASK), WTS_LEN) {
          return true;
        }
      }
      tsWord := v2;
      ok := true;
    }
  }
}
