/** The manager of one Silo row: operations on the version word and the row's data, in place.
    How they interleave with those of other threads is the business of Silo. */
module RowSilo {
  const LOCK_BIT: nat := 0x8000_0000_0000_0000

  class RowSilo {
    var tidWord: nat
    const data: array<int>

    ghost predicate Valid()
      reads this
    {
      tidWord < 2 * LOCK_BIT
    }

    predicate Locked()
      reads this
    {
      tidWord >= LOCK_BIT
    }

    function Tid(): nat
      reads this
    {
      tidWord % LOCK_BIT
    }

    constructor (data: array<int>)
      ensures Valid() && !Locked() && Tid() == 0 && this.data == data
    {
      this.data := data;
      tidWord := 0;
    }

    /** A row of the read set is still the version `tid` and free; a row of the write set,
        which the caller has locked, is still the version `tid`. */
    method Validate(tid: nat, inWriteSet: bool) returns (ok: bool)
      requires Valid()
      ensures ok == (Tid() == tid && (!inWriteSet ==> !Locked()))
    {
      var v := tidWord;
      if inWriteSet { return tid == v % LOCK_BIT; }
      if v / LOCK_BIT == 1 { return false; }
      else if tid != v % LOCK_BIT { return false; }
      else { return true; }
    }

    method TryLock() returns (ok: bool)
      requires Valid()
      modifies this
      ensures Valid() && Locked() && Tid() == old(Tid())
      ensures ok == !old(Locked())
    {
      var v := tidWord;
      if v / LOCK_BIT == 1 { return false; }
      tidWord := v + LOCK_BIT;
      ok := true;
    }

    method Release()
      requires Valid() && Locked()
      modifies this
      ensures Valid() && !Locked() && Tid() == old(Tid())
    {
      tidWord := tidWord % LOCK_BIT;
    }

    /** Installing a version: the tid grows, the lock is kept. */
    method Write(src: array<int>, tid: nat)
      requires Valid() && Locked() && Tid() < tid < LOCK_BIT
      requires src != data && src.Length == data.Length
      modifies this, data
      ensures Valid() && Locked() && Tid() == tid > old(Tid())
      ensures data[..] == src[..]
    {
      for k := 0 to data.Length
        invariant tidWord == old(tidWord) && data[..k] == src[..k]
      {
        data[k] := src[k];
      }
      assert data[..data.Length] == data[..] && src[..src.Length] == src[..];
      tidWord := tid + LOCK_BIT;
    }
  }
}
