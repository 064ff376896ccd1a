/** The first part of the TicToc commit: one pass over the accesses that splits them into
    write set and read set, and one that computes the commit timestamp. */
module TicTocSets {
  import opened AccessList
  import opened TicToc

  ghost predicate Indices(acc: seq<Access<Lease>>, idx: seq<nat>) {
    forall i :: 0 <= i < |idx| ==> idx[i] < |acc|
  }

  function Pick(acc: seq<Access<Lease>>, idx: seq<nat>): (r: seq<Access<Lease>>)
    requires Indices(acc, idx)
  {
    seq(|idx|, i requires 0 <= i < |idx| => acc[idx[i]])
  }

  method SplitSets(acc: seq<Access<Lease>>) returns (writeSet: seq<nat>, readSet: seq<nat>)
    ensures Indices(acc, writeSet) && Pick(acc, writeSet) == Filter(acc, true)
    ensures Indices(acc, readSet) && Pick(acc, readSet) == Filter(acc, false)
  {
    writeSet, readSet := [], [];
    for rid := 0 to |acc|
      invariant Indices(acc, writeSet) && Pick(acc, writeSet) == Filter(acc[..rid], true)
      invariant Indices(acc, readSet) && Pick(acc, readSet) == Filter(acc[..rid], false)
    {
      assert acc[..rid + 1][..rid] == acc[..rid];
      ghost var ws, rs := Pick(acc, writeSet), Pick(acc, readSet);
      if acc[rid].write {
        writeSet := writeSet + [rid];
        assert Pick(acc, writeSet) == ws + [acc[rid]];
      } else {
        readSet := readSet + [rid];
        assert Pick(acc, readSet) == rs + [acc[rid]];
      }
    }
    assert acc[..|acc|] == acc;
  }

  /** The two running maxima and their join are the least timestamp that `CommitTs` is. */
  method ChooseCommitTs(acc: seq<Access<Lease>>) returns (commitWts: nat)
    ensures commitWts == CommitTs(acc)
    ensures forall a :: a in acc ==> commitWts >= if a.write then a.ver.rts + 1 else a.ver.wts
    ensures commitWts == 0 || exists a :: a in acc && commitWts == if a.write then a.ver.rts + 1 else a.ver.wts
  {
    var commitRts := 0;
    commitWts := 0;
    for i := 0 to |acc|
      invariant CommitTs(acc[..i]) == if commitRts > commitWts then commitRts else commitWts
      invariant commitRts == 0 || exists a :: a in acc && commitRts == if a.write then a.ver.rts + 1 else a.ver.wts
      invariant commitWts == 0 || exists a :: a in acc && commitWts == if a.write then a.ver.rts + 1 else a.ver.wts
    {
      assert acc[..i + 1][..i] == acc[..i];
      var access := acc[i];
      assert access in acc;
      if !access.write && access.ver.wts > commitRts {
        commitRts := access.ver.wts;
      } else if access.write && access.ver.rts + 1 > commitWts {
        commitWts := access.ver.rts + 1;
      }
    }
    assert acc[..|acc|] == acc;
    if commitRts > commitWts {
      commitWts := commitRts;
    }
  }
}
