/** What the bodies of the transactions experience in a run, kept apart from the lists that the
    protocols keep of it: every value handed to a body, every value a body sets, every commit.
    A commit log reports a run when it says of every committed transaction exactly that. */
module Ledger {
  import opened Serial

  /** What one step means for the body of the transaction that takes it. */
  datatype Deed =
    | Starts
    | Gets(row: nat, val: Val, write: bool)
    | Sets(row: nat, val: Val)
    | Commits
    | Other

  /** What a body has seen so far, and what it leaves behind. */
  datatype Account = Account(seen: map<nat, Val>, wrote: map<nat, Val>)

  const BLANK: Account := Account(map[], map[])

  function After(a: Account, d: Deed): Account {
    match d
    case Starts => BLANK
    case Gets(x, v, write) => Account(a.seen[x := v], if write then a.wrote[x := v] else a.wrote)
    case Sets(x, v) => Account(a.seen, a.wrote[x := v])
    case _ => a
  }

  /** The deeds of a run, each with the thread that does it. */
  type Deeds = seq<(nat, Deed)>

  function AccountOf(deeds: Deeds, t: nat): Account {
    if deeds == [] then BLANK
    else
      var (u, d) := deeds[|deeds| - 1];
      var a := AccountOf(deeds[..|deeds| - 1], t);
      if u == t then After(a, d) else a
  }

  /** The accounts of the committed transactions, in the order of their commits. */
  function Books(deeds: Deeds): seq<Account> {
    if deeds == [] then []
    else
      var (u, d) := deeds[|deeds| - 1];
      var before := deeds[..|deeds| - 1];
      Books(before) + if d.Commits? then [AccountOf(before, u)] else []
  }

  ghost predicate IsReport(u: Txn, a: Account) {
    u.seen == a.seen && u.written == a.wrote
  }

  /** The log has an entry for every commit, which reports all that its body has been given and
      all that it has set, and nothing else. */
  ghost predicate Reports(log: seq<Txn>, books: seq<Account>) {
    |log| == |books| && forall i :: 0 <= i < |log| ==> IsReport(log[i], books[i])
  }

  lemma NextDeed(deeds: Deeds, t: nat, d: Deed)
    ensures forall u :: AccountOf(deeds + [(t, d)], u) == if u == t then After(AccountOf(deeds, u), d) else AccountOf(deeds, u)
    ensures Books(deeds + [(t, d)]) == Books(deeds) + if d.Commits? then [AccountOf(deeds, t)] else []
  {
    assert (deeds + [(t, d)])[..|deeds|] == deeds;
  }

  /** A log stays a report when it grows with the commits. */
  lemma NextReports(deeds: Deeds, t: nat, d: Deed, log: seq<Txn>, log': seq<Txn>)
    requires Reports(log, Books(deeds))
    requires if d.Commits? then |log'| == |log| + 1 && log == log'[..|log|] && IsReport(log'[|log|], AccountOf(deeds, t)) else log' == log
    ensures Reports(log', Books(deeds + [(t, d)]))
  {
    hide IsReport, AccountOf, Books;
    NextDeed(deeds, t, d);
  }

  lemma NoDeeds()
    ensures Books([]) == [] && forall t :: AccountOf([], t) == BLANK
  {
  }
}
