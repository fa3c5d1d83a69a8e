/**
 * What two leaders of one term need in the registry's election manager: a voter that voted,
 * adopted an announcement, and voted for the other (src/registry/election.rs).
 */
module ElectionDoubleVote {
  import opened Wrappers
  import opened Identity
  import opened ElectionMessages
  import opened ElectionManager
  import opened ElectionManagerRuns
  import Counting

  /** A run with the group before and after every event. */
  ghost predicate IsTrace(states: seq<Group>, run: seq<Event>) {
    && |states| == |run| + 1
    && forall i: nat | i < |run| :: Legal(states[i], run[i]) && states[i + 1] == Step(states[i], run[i])
  }

  lemma {:induction false} Traced(g: Group, run: seq<Event>) returns (states: seq<Group>)
    requires LegalRun(g, run)
    ensures IsTrace(states, run) && states[0] == g && states[|run|] == Execute(g, run)
    decreases |run|
  {
    hide Step, Legal;
    if run == [] {
      states := [g];
    } else {
      var rest := Traced(Step(g, run[0]), run[1..]);
      states := [g] + rest;
      forall i: nat | i < |run|
        ensures Legal(states[i], run[i]) && states[i + 1] == Step(states[i], run[i])
      {
        assert i > 0 ==> states[i] == rest[i - 1] && run[i] == run[1..][i - 1];
      }
    }
  }

  /** Event k makes v vote for x in term t. */
  ghost predicate VotesAt(states: seq<Group>, run: seq<Event>, k: nat, v: NodeId, x: NodeId, t: nat)
    requires IsTrace(states, run)
  {
    && k < |run| && run[k].node == v
    && Cast(states[k].cfgs[v], states[k].mgrs[v], run[k].input) == Some(x)
    && v in states[k + 1].mgrs && states[k + 1].mgrs[v].term == t
  }

  /** Event k is an announcement of v's own term t that v adopts while it remembers voting for x. */
  ghost predicate ForgetsAt(states: seq<Group>, run: seq<Event>, k: nat, v: NodeId, x: NodeId, t: nat)
    requires IsTrace(states, run)
  {
    && k < |run| && run[k].node == v
    && EqualTermAnnouncement(states[k].cfgs[v], states[k].mgrs[v], run[k].input)
    && states[k].mgrs[v].term == t && states[k].mgrs[v].votedFor == Some(x)
  }

  /** v votes for x in t, forgets it on an announcement of t, and votes for y in t. */
  ghost predicate VotesTwiceAt(
    states: seq<Group>, run: seq<Event>, v: NodeId, x: NodeId, y: NodeId, t: nat, i: nat, j: nat, k: nat)
    requires IsTrace(states, run)
  {
    && i < j < k && x != y
    && VotesAt(states, run, i, v, x, t) && ForgetsAt(states, run, j, v, x, t) && VotesAt(states, run, k, v, y, t)
  }

  // ---------------------------------------------------------------------
  //  Along a trace
  // ---------------------------------------------------------------------

  lemma {:induction false} VoteWasCast(states: seq<Group>, run: seq<Event>, n: nat, v: NodeId, x: NodeId, t: nat)
      returns (i: nat)
    requires IsTrace(states, run) && n <= |run| && states[0].votes == {} && (v, x, t) in states[n].votes
    ensures i < n && VotesAt(states, run, i, v, x, t)
  {
    assert n > 0 && states[n] == Step(states[n - 1], run[n - 1]);
    if (v, x, t) in states[n - 1].votes {
      i := VoteWasCast(states, run, n - 1, v, x, t);
    } else {
      i := n - 1;
    }
  }

  lemma {:induction false} VoteIsRecorded(
    states: seq<Group>, run: seq<Event>, n: nat, v: NodeId, x: NodeId, t: nat, i: nat)
    requires IsTrace(states, run) && i < n <= |run| && VotesAt(states, run, i, v, x, t)
    ensures (v, x, t) in states[n].votes
  {
    assert states[n] == Step(states[n - 1], run[n - 1]);
    if i < n - 1 {
      VoteIsRecorded(states, run, n - 1, v, x, t, i);
    }
  }

  /** Without a wrapped counter no manager's term falls. */
  lemma {:induction false} TermsGrow(states: seq<Group>, run: seq<Event>, i: nat, n: nat, v: NodeId)
    requires IsTrace(states, run) && i <= n <= |run| && !states[n].wrapped && v in states[n].mgrs
    ensures v in states[i].mgrs && !states[i].wrapped && states[i].mgrs[v].term <= states[n].mgrs[v].term
  {
    if i < n {
      assert states[n] == Step(states[n - 1], run[n - 1]);
      StepGrows(states[n - 1], run[n - 1], v);
      TermsGrow(states, run, i, n - 1, v);
    }
  }

  lemma StepGrows(g: Group, e: Event, v: NodeId)
    requires Legal(g, e) && !Step(g, e).wrapped && v in Step(g, e).mgrs
    ensures v in g.mgrs && !g.wrapped && g.mgrs[v].term <= Step(g, e).mgrs[v].term
  {
  }

  /** A vote leaves its mark, and found none of its own term. */
  lemma VoteMarks(states: seq<Group>, run: seq<Event>, k: nat, v: NodeId, x: NodeId, t: nat)
    requires IsTrace(states, run) && VotesAt(states, run, k, v, x, t) && !states[k + 1].wrapped
    ensures states[k + 1].mgrs[v].votedFor == Some(x)
    ensures states[k].mgrs[v].term == t ==> states[k].mgrs[v].votedFor == None
  {
    assert states[k + 1] == Step(states[k], run[k]);
    StepGrows(states[k], run[k], v);
    InputMovesVote(states[k].cfgs[v], states[k].mgrs[v], run[k].input);
  }

  /** A remembered vote that is gone within the term was forgotten at some event in between. */
  lemma {:induction false} VoteWasForgotten(
      states: seq<Group>, run: seq<Event>, i: nat, n: nat, v: NodeId, x: NodeId, t: nat) returns (j: nat)
    requires IsTrace(states, run) && i <= n <= |run| && !states[n].wrapped
    requires v in states[i].mgrs && states[i].mgrs[v].term == t && states[i].mgrs[v].votedFor == Some(x)
    requires v in states[n].mgrs && states[n].mgrs[v].term == t && states[n].mgrs[v].votedFor != Some(x)
    ensures i <= j < n && ForgetsAt(states, run, j, v, x, t)
  {
    hide Step, Legal, EqualTermAnnouncement;
    var g := states[n - 1];
    assert states[n] == Step(g, run[n - 1]);
    TermsGrow(states, run, n - 1, n, v);
    TermsGrow(states, run, i, n - 1, v);
    if g.mgrs[v].votedFor != Some(x) {
      j := VoteWasForgotten(states, run, i, n - 1, v, x, t);
    } else {
      j := n - 1;
      StepForgets(g, run[n - 1], v, x, t);
    }
  }

  lemma StepForgets(g: Group, e: Event, v: NodeId, x: NodeId, t: nat)
    requires Legal(g, e) && v in g.mgrs && g.mgrs[v].term == t && g.mgrs[v].votedFor == Some(x)
    requires v in Step(g, e).mgrs && Step(g, e).mgrs[v].term == t && Step(g, e).mgrs[v].votedFor != Some(x)
    ensures e.node == v && EqualTermAnnouncement(g.cfgs[v], g.mgrs[v], e.input)
  {
    assert e.node == v;
    VoteForgottenOnlyByEqualTermAnnouncement(g.cfgs[v], g.mgrs[v], e.input);
  }

  lemma SecondVoteNeedsForgetting(
      states: seq<Group>, run: seq<Event>, v: NodeId, x: NodeId, y: NodeId, t: nat, i: nat, k: nat) returns (j: nat)
    requires IsTrace(states, run) && !states[|run|].wrapped && x != y && i < k
    requires VotesAt(states, run, i, v, x, t) && VotesAt(states, run, k, v, y, t)
    ensures VotesTwiceAt(states, run, v, x, y, t, i, j, k)
  {
    hide VotesAt;
    VoteOfTrace(states, run, i, v, x, t);
    VoteOfTrace(states, run, k, v, y, t);
    TermsStay(states, run, k, v);
    TermsGrow(states, run, i + 1, k, v);
    TermsGrow(states, run, k, k + 1, v);
    VoteMarks(states, run, i, v, x, t);
    VoteMarks(states, run, k, v, y, t);
    j := VoteWasForgotten(states, run, i + 1, k, v, x, t);
  }

  lemma VoteOfTrace(states: seq<Group>, run: seq<Event>, k: nat, v: NodeId, x: NodeId, t: nat)
    requires IsTrace(states, run) && VotesAt(states, run, k, v, x, t)
    ensures k < |run| && v in states[k].mgrs && v in states[k + 1].mgrs && states[k + 1].mgrs[v].term == t
  {
    assert Legal(states[k], run[k]);
  }

  lemma {:induction false} MembersStay(states: seq<Group>, run: seq<Event>, i: nat, n: nat)
    requires IsTrace(states, run) && i <= n <= |run|
    ensures states[i].mgrs.Keys == states[n].mgrs.Keys
  {
    if i < n {
      MembersStay(states, run, i, n - 1);
      assert states[n] == Step(states[n - 1], run[n - 1]);
    }
  }

  lemma TermsStay(states: seq<Group>, run: seq<Event>, k: nat, v: NodeId)
    requires IsTrace(states, run) && k < |run| && !states[|run|].wrapped && v in states[k].mgrs
    ensures !states[k + 1].wrapped && !states[k].wrapped && v in states[k + 1].mgrs
  {
    MembersStay(states, run, k, |run|);
    TermsGrow(states, run, k, |run|, v);
    TermsGrow(states, run, k + 1, |run|, v);
  }

  // ---------------------------------------------------------------------
  //  The theorems
  // ---------------------------------------------------------------------

  /** Two candidates hold votes of one manager in one term exactly if it voted, forgot and voted again. */
  lemma TwoVotesIff(states: seq<Group>, run: seq<Event>, v: NodeId, t: nat)
    requires IsTrace(states, run) && states[0].votes == {} && !states[|run|].wrapped
    ensures (exists x, y :: x != y && (v, x, t) in states[|run|].votes && (v, y, t) in states[|run|].votes) <==>
      exists x, y, i, j, k :: VotesTwiceAt(states, run, v, x, y, t, i, j, k)
  {
    if x, y :| x != y && (v, x, t) in states[|run|].votes && (v, y, t) in states[|run|].votes {
      var p, q, i, j, k := TwoVotes(states, run, v, x, y, t);
    }
    if x, y, i, j, k :| VotesTwiceAt(states, run, v, x, y, t, i, j, k) {
      VoteIsRecorded(states, run, |run|, v, x, t, i);
      VoteIsRecorded(states, run, |run|, v, y, t, k);
    }
  }

  lemma TwoVotes(states: seq<Group>, run: seq<Event>, v: NodeId, x: NodeId, y: NodeId, t: nat)
      returns (p: NodeId, q: NodeId, i: nat, j: nat, k: nat)
    requires IsTrace(states, run) && states[0].votes == {} && !states[|run|].wrapped
    requires x != y && (v, x, t) in states[|run|].votes && (v, y, t) in states[|run|].votes
    ensures {p, q} == {x, y} && VotesTwiceAt(states, run, v, p, q, t, i, j, k)
  {
    p, q := x, y;
    i := VoteWasCast(states, run, |run|, v, x, t);
    k := VoteWasCast(states, run, |run|, v, y, t);
    if i > k {
      p, q, i, k := y, x, k, i;
    }
    j := SecondVoteNeedsForgetting(states, run, v, p, q, t, i, k);
  }

  lemma InitKeepsAll(g: Group)
    requires Init(g)
    ensures LedgerInv(g) && BallotInv(g) && QuorumInv(g)
  {
  }

  lemma CommonVoter(g: Group, run: seq<Event>, a: NodeId, b: NodeId, t: nat) returns (v: NodeId)
    requires Init(g) && LegalRun(g, run) && !Execute(g, run).wrapped
    requires (a, t) in Execute(g, run).won && (b, t) in Execute(g, run).won
    ensures (v, a, t) in Execute(g, run).votes && (v, b, t) in Execute(g, run).votes
  {
    hide Execute, LegalRun, LedgerInv, BallotInv;
    assert LedgerInv(g) && BallotInv(g) && QuorumInv(g) by {
      InitKeepsAll(g);
    }
    RunKeepsInvariants(g, run);
    var d := Execute(g, run);
    Counting.MajoritiesMeet(Voters(d, a, t), Voters(d, b, t), d.mgrs.Keys);
    v :| v in Voters(d, a, t) * Voters(d, b, t);
  }

  /**
   * With no counter wrapped, two leaders of one term need a manager that voted for one of
   * them in that term, then adopted an announcement of that same term, then voted for the other.
   */
  lemma TwoLeadersNeedDoubleVote(g: Group, run: seq<Event>, a: NodeId, b: NodeId, t: nat)
      returns (states: seq<Group>, v: NodeId, x: NodeId, y: NodeId, i: nat, j: nat, k: nat)
    requires Init(g) && LegalRun(g, run) && !Execute(g, run).wrapped
    requires a != b && (a, t) in Execute(g, run).won && (b, t) in Execute(g, run).won
    ensures IsTrace(states, run) && states[0] == g && states[|run|] == Execute(g, run)
    ensures {x, y} == {a, b} && VotesTwiceAt(states, run, v, x, y, t, i, j, k)
  {
    hide Execute, LegalRun;
    v := CommonVoter(g, run, a, b, t);
    states := Traced(g, run);
    x, y, i, j, k := TwoVotes(states, run, v, a, b, t);
  }
}
