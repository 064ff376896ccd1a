/** The accesses of one transaction, shared by the protocols that work on private copies. */
module AccessList {
  import opened Serial

  /** One access: the row, what its version looked like (a lease or a version number), the
      copy taken and the private copy, which the transaction changes when it writes. */
  datatype Access<V> = Access(write: bool, row: nat, ver: V, orig: Val, data: Val)

  /** The write set or the read set, in access order. */
  function Filter<V>(acc: seq<Access<V>>, write: bool): (r: seq<Access<V>>) {
    if acc == [] then []
    else Filter(acc[..|acc| - 1], write) + if acc[|acc| - 1].write == write then [acc[|acc| - 1]] else []
  }

  function Reads<V>(acc: seq<Access<V>>): map<nat, Val> {
    if acc == [] then map[] else Reads(acc[..|acc| - 1])[acc[|acc| - 1].row := acc[|acc| - 1].orig]
  }

  function Writes<V>(acc: seq<Access<V>>): map<nat, Val> {
    if acc == [] then map[] else Writes(acc[..|acc| - 1])[acc[|acc| - 1].row := acc[|acc| - 1].data]
  }

  /** A transaction touches a row at most once. */
  ghost predicate Distinct<V>(acc: seq<Access<V>>) {
    forall i, j :: 0 <= i < j < |acc| ==> acc[i].row != acc[j].row
  }

  ghost predicate Apart<V>(ws: seq<Access<V>>, rs: seq<Access<V>>) {
    forall i, j :: 0 <= i < |ws| && 0 <= j < |rs| ==> ws[i].row != rs[j].row
  }

  lemma {:induction false} FilterFrom<V>(acc: seq<Access<V>>, w: bool, i: nat) returns (k: nat)
    requires i < |Filter(acc, w)|
    ensures k < |acc| && acc[k] == Filter(acc, w)[i] && acc[k].write == w
  {
    var n := |acc| - 1;
    if i < |Filter(acc[..n], w)| { k := FilterFrom(acc[..n], w, i); } else { k := n; }
  }

  lemma {:induction false} FilterDistinct<V>(acc: seq<Access<V>>, w: bool)
    requires Distinct(acc)
    ensures Distinct(Filter(acc, w))
  {
    if acc != [] {
      var n := |acc| - 1;
      FilterDistinct(acc[..n], w);
      var f := Filter(acc[..n], w);
      forall i | 0 <= i < |f| ensures f[i].row != acc[n].row {
        var k := FilterFrom(acc[..n], w, i);
      }
    }
  }

  /** Write set and read set of distinct accesses do not meet. */
  lemma FilterApart<V>(acc: seq<Access<V>>)
    requires Distinct(acc)
    ensures Apart(Filter(acc, true), Filter(acc, false))
  {
    forall i, j | 0 <= i < |Filter(acc, true)| && 0 <= j < |Filter(acc, false)|
      ensures Filter(acc, true)[i].row != Filter(acc, false)[j].row
    {
      var k := FilterFrom(acc, true, i);
      var l := FilterFrom(acc, false, j);
      if k < l { assert acc[k].row != acc[l].row; } else { assert acc[l].row != acc[k].row; }
    }
  }

  lemma {:induction false} WriteSlot<V>(acc: seq<Access<V>>, x: nat) returns (i: nat)
    requires x in Writes(acc)
    ensures i < |acc| && acc[i].row == x && Writes(acc)[x] == acc[i].data
  {
    if acc[|acc| - 1].row == x { i := |acc| - 1; } else { i := WriteSlot(acc[..|acc| - 1], x); }
  }

  lemma {:induction false} ReadSlot<V>(acc: seq<Access<V>>, x: nat) returns (i: nat)
    requires x in Reads(acc)
    ensures i < |acc| && acc[i].row == x && Reads(acc)[x] == acc[i].orig
  {
    if acc[|acc| - 1].row == x { i := |acc| - 1; } else { i := ReadSlot(acc[..|acc| - 1], x); }
  }

  lemma {:induction false} WritesHas<V>(acc: seq<Access<V>>, i: nat)
    requires i < |acc|
    ensures acc[i].row in Writes(acc)
  {
    if i < |acc| - 1 { WritesHas(acc[..|acc| - 1], i); }
  }

  lemma WrittenIs<V>(acc: seq<Access<V>>, i: nat)
    requires Distinct(acc) && i < |acc|
    ensures acc[i].row in Writes(acc) && Writes(acc)[acc[i].row] == acc[i].data
  {
    WritesHas(acc, i);
    var j := WriteSlot(acc, acc[i].row);
    assert j == i;
  }

  // ---------------------------------------------------------------- what the lists say

  /** One more access. */
  lemma OneMore<V>(acc: seq<Access<V>>, a: Access<V>)
    ensures Reads(acc + [a]) == Reads(acc)[a.row := a.orig]
    ensures Writes(Filter(acc + [a], true)) == if a.write then Writes(Filter(acc, true))[a.row := a.data] else Writes(Filter(acc, true))
  {
    assert (acc + [a])[..|acc|] == acc;
    var ws := Filter(acc, true);
    assert Filter(acc + [a], true) == if a.write then ws + [a] else ws;
    assert (ws + [a])[..|ws|] == ws;
  }

  /** Changing the private copy of one access. */
  lemma {:induction false} ChangedData<V>(acc: seq<Access<V>>, k: nat, v: Val)
    requires k < |acc| && acc[k].write && Distinct(acc)
    ensures Reads(acc[k := acc[k].(data := v)]) == Reads(acc)
    ensures Writes(Filter(acc[k := acc[k].(data := v)], true)) == Writes(Filter(acc, true))[acc[k].row := v]
  {
    hide Reads, Writes, Filter;
    var n := |acc| - 1;
    var changed := acc[k := acc[k].(data := v)];
    assert acc == acc[..n] + [acc[n]];
    OneMore(acc[..n], acc[n]);
    if k == n {
      assert changed == acc[..n] + [acc[n].(data := v)];
      OneMore(acc[..n], acc[n].(data := v));
    } else {
      assert changed == acc[..n][k := acc[k].(data := v)] + [acc[n]];
      ChangedData(acc[..n], k, v);
      OneMore(acc[..n][k := acc[k].(data := v)], acc[n]);
      assert acc[k].row != acc[n].row;
    }
  }

  lemma {:induction false} ReadIs<V>(acc: seq<Access<V>>, i: nat)
    requires Distinct(acc) && i < |acc|
    ensures acc[i].row in Reads(acc) && Reads(acc)[acc[i].row] == acc[i].orig
  {
    if i < |acc| - 1 { ReadIs(acc[..|acc| - 1], i); }
  }

  lemma {:induction false} InFilter<V>(acc: seq<Access<V>>, k: nat) returns (i: nat)
    requires k < |acc|
    ensures i < |Filter(acc, acc[k].write)| && Filter(acc, acc[k].write)[i] == acc[k]
  {
    var n := |acc| - 1;
    if k < n { i := InFilter(acc[..n], k); } else { i := |Filter(acc[..n], acc[k].write)|; }
  }

  /** The two sets together report what the access list reports. */
  lemma SetsReport<V>(acc: seq<Access<V>>)
    requires Distinct(acc)
    ensures Reads(Filter(acc, true) + Filter(acc, false)) == Reads(acc)
  {
    hide Reads, Filter;
    var ws, rs := Filter(acc, true), Filter(acc, false);
    var all := ws + rs;
    FilterDistinct(acc, true);
    FilterDistinct(acc, false);
    FilterApart(acc);
    forall x | x in Reads(acc) ensures x in Reads(all) && Reads(all)[x] == Reads(acc)[x] {
      var k := ReadSlot(acc, x);
      var i := InFilter(acc, k);
      ReadIs(all, if acc[k].write then i else |ws| + i);
    }
    forall x | x in Reads(all) ensures x in Reads(acc) {
      var i := ReadSlot(all, x);
      var k;
      if i < |ws| { k := FilterFrom(acc, true, i); } else { k := FilterFrom(acc, false, i - |ws|); }
      ReadIs(acc, k);
    }
  }
}
