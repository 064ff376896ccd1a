/** The row manager of optimistic concurrency control, and the sort that validation starts
    with, changing data in place. */
module RowOcc {
  import opened Occ
  import OccProof

  class RowOcc {
    var wts: nat
    const data: array<int>

    constructor (data: array<int>)
      ensures wts == 0 && this.data == data
    {
      this.data := data;
      wts := 0;
    }

    /** A transaction that started before the row was written last is turned away; any other
        gets a copy. */
    method Access(start: nat, copy: array<int>) returns (ok: bool)
      requires copy != data && copy.Length == data.Length
      modifies copy
      ensures ok == (start >= wts)
      ensures ok ==> copy[..] == data[..]
    {
      if start < wts { return false; }
      for k := 0 to data.Length
        invariant copy[..k] == data[..k]
      {
        copy[k] := data[k];
      }
      assert copy[..copy.Length] == copy[..] && data[..data.Length] == data[..];
      ok := true;
    }

    method Validate(ts: nat) returns (ok: bool)
      ensures ok == (ts >= wts)
    {
      if ts < wts { return false; } else { return true; }
    }

    method Write(src: array<int>, ts: nat)
      requires ts > wts && src != data && src.Length == data.Length
      modifies this, data
      ensures wts == ts > old(wts) && data[..] == src[..]
    {
      for k := 0 to data.Length
        invariant wts == old(wts) && data[..k] == src[..k]
      {
        data[k] := src[k];
      }
      assert data[..data.Length] == data[..] && src[..src.Length] == src[..];
      wts := ts;
    }
  }

  /** From position `lo` on everything is in order and no smaller than what comes before. */
  ghost predicate SortedFrom(s: seq<Access>, lo: int) {
    forall j, k :: 0 <= j < k < |s| && lo <= k ==> s[j].row <= s[k].row
  }

  ghost predicate TopAt(s: seq<Access>, j: int) {
    forall k :: 0 <= k < j < |s| ==> s[k].row <= s[j].row
  }

  /** Exchanging two neighbours that are out of order. */
  lemma SwapKeeps(s: seq<Access>, s': seq<Access>, j: nat, i: nat)
    requires j < i < |s| && SortedFrom(s, i + 1) && TopAt(s, j) && s[j].row > s[j + 1].row
    requires s' == s[j := s[j + 1]][j + 1 := s[j]]
    ensures multiset(s') == multiset(s) && SortedFrom(s', i + 1) && TopAt(s', j + 1)
  {
  }

  lemma NoSwap(s: seq<Access>, j: nat)
    requires j + 1 < |s| && TopAt(s, j) && s[j].row <= s[j + 1].row
    ensures TopAt(s, j + 1)
  {
  }

  lemma PassDone(s: seq<Access>, i: nat)
    requires i < |s| && SortedFrom(s, i + 1) && TopAt(s, i)
    ensures SortedFrom(s, i)
  {
  }

  /** One pass of the bubble sort carries the largest of the first `i + 1` accesses up. */
  method Pass(a: array<Access>, i: nat)
    requires i < a.Length && SortedFrom(a[..], i + 1)
    modifies a
    ensures multiset(a[..]) == multiset(old(a[..])) && SortedFrom(a[..], i)
  {
    hide SortedFrom;
    for j := 0 to i
      invariant multiset(a[..]) == multiset(old(a[..]))
      invariant SortedFrom(a[..], i + 1) && TopAt(a[..], j)
    {
      ghost var s := a[..];
      if a[j].row > a[j + 1].row {
        a[j], a[j + 1] := a[j + 1], a[j];
        SwapKeeps(s, a[..], j, i);
      } else {
        NoSwap(s, j);
      }
    }
    PassDone(a[..], i);
  }

  /** The bubble sort of the accesses in key order.  It only reorders them; when they are
      distinct the result is strictly ascending. */
  method SortAccesses(a: array<Access>)
    modifies a
    ensures OccProof.SortedVersion(old(a[..]), a[..])
  {
    var i := a.Length - 1;
    while i > 0
      invariant -1 <= i < a.Length
      invariant multiset(a[..]) == multiset(old(a[..]))
      invariant SortedFrom(a[..], i + 1)
    {
      Pass(a, i);
      i := i - 1;
    }
    if OccProof.Distinct(old(a[..])) {
      OccProof.SortedIsDistinct(old(a[..]), a[..]);
    }
  }
}
