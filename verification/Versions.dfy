/** The complete version history of one row: every version any transaction ever commits,
    whether or not the row still stores it. */
module Versions {
  import opened Serial

  datatype Version = Version(ts: nat, value: Val)

  ghost predicate Ascending(h: seq<Version>) {
    && h != []
    && h[0].ts == 0
    && (forall i, j :: 0 <= i < j < |h| ==> h[i].ts < h[j].ts)
  }

  function Last(h: seq<Version>): Version
    requires h != []
  {
    h[|h| - 1]
  }

  /** The index of the newest version no later than `at`. */
  function IndexAt(h: seq<Version>, at: nat): (k: nat)
    requires h != []
    ensures k < |h|
    ensures forall i :: k < i < |h| ==> h[i].ts > at
    ensures k > 0 ==> h[k].ts <= at
  {
    if |h| == 1 || Last(h).ts <= at then |h| - 1 else IndexAt(h[..|h| - 1], at)
  }

  function ValueAt(h: seq<Version>, at: nat): Val
    requires h != []
  {
    h[IndexAt(h, at)].value
  }

  /** A newer version is invisible to every earlier snapshot. */
  lemma Append(h: seq<Version>, v: Version, at: nat)
    requires h != []
    ensures ValueAt(h + [v], at) == if at < v.ts then ValueAt(h, at) else v.value
  {
    assert (h + [v])[..|h|] == h;
  }

  lemma {:induction false} AtLast(h: seq<Version>, at: nat)
    requires h != []
    requires Last(h).ts <= at
    ensures ValueAt(h, at) == Last(h).value
  {
  }
}
