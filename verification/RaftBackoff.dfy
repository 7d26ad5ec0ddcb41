/** How a leader's next_index for one follower backs off (src/distributed/raft.c:174-203)
    against the follower's consistency check (docs/distributed_coordination.md:445-462). */
module RaftBackoff {
  import opened Base
  import opened RaftNode
  import RaftElection

  /** One heartbeat is lost or answered; between heartbeats clients may append to the leader. */
  datatype Round = Lost | Answered | Appended(data: seq<byte>)

  ghost predicate Leading(n: Node, i: nat) {
    NodeInv(n) && n.role == Leader && i < |n.members|
  }

  /** The follower is at the leader's term by the time it answers. */
  ghost function Answer(n: Node, i: nat, follower: seq<Entry>): AppendReply
    requires Leading(n, i)
  {
    var req := BeatRequest(n, i);
    AppendReply(n.term, CheckLogConsistency(follower, req.prevIndex, req.prevTerm))
  }

  ghost function Step(n: Node, i: nat, follower: seq<Entry>, round: Round): (m: Node)
    requires Leading(n, i)
    ensures Leading(m, i)
  {
    match round
    case Lost => n
    case Answered => TakeBeatReply(n, i, Answer(n, i, follower))
    case Appended(data) => AppendLog(n, data, true).0
  }

  ghost function After(n: Node, i: nat, follower: seq<Entry>, rounds: seq<Round>): (m: Node)
    requires Leading(n, i)
    ensures Leading(m, i)
  {
    if rounds == [] then n
    else Step(After(n, i, follower, rounds[..|rounds| - 1]), i, follower, rounds[|rounds| - 1])
  }

  function Answers(rounds: seq<Round>): nat {
    if rounds == [] then 0
    else Answers(rounds[..|rounds| - 1]) + if rounds[|rounds| - 1].Answered? then 1 else 0
  }

  /** How many of the answers were refusals. */
  ghost function Refusals(n: Node, i: nat, follower: seq<Entry>, rounds: seq<Round>): nat
    requires Leading(n, i)
  {
    if rounds == [] then 0
    else
      var last := |rounds| - 1;
      Refusals(n, i, follower, rounds[..last])
      + if rounds[last].Answered? && !Answer(After(n, i, follower, rounds[..last]), i, follower).success then 1 else 0
  }

  /** Both logs carry the same term at `index`, or `index` is 0. */
  predicate SameTermAt(leader: seq<Entry>, follower: seq<Entry>, index: nat) {
    index == 0 || (index <= |leader| && index <= |follower| && leader[index - 1].term == follower[index - 1].term)
  }

  ghost predicate IsMeeting(leader: seq<Entry>, follower: seq<Entry>, top: nat, m: nat) {
    && m <= top && SameTermAt(leader, follower, m)
    && forall k :: m < k <= top ==> !SameTermAt(leader, follower, k)
  }

  lemma {:induction false} MeetingExists(leader: seq<Entry>, follower: seq<Entry>, top: nat) returns (m: nat)
    ensures IsMeeting(leader, follower, top, m)
  {
    if SameTermAt(leader, follower, top) {
      m := top;
    } else {
      m := MeetingExists(leader, follower, top - 1);
    }
  }

  /** One round, once next_index is at or above the meeting point of the log at the election. */
  lemma OneRound(log: seq<Entry>, n: Node, i: nat, follower: seq<Entry>, round: Round, m: nat)
    requires Leading(n, i) && log <= n.log
    requires IsMeeting(log, follower, |log|, m) && m < n.next[i] <= |log| + 1
    ensures var n' := Step(n, i, follower, round);
            && log <= n'.log && n'.term == n.term && n'.members == n.members
            && n'.next[i] == (if round.Answered? && n.next[i] > m + 1 then n.next[i] - 1 else n.next[i])
            && n'.matched[i] == (if round.Answered? && n.next[i] == m + 1 then m else n.matched[i])
    ensures round.Answered? ==> Answer(n, i, follower).success == (n.next[i] == m + 1)
  {
    var prev := n.next[i] - 1;
    assert prev > m ==> !SameTermAt(log, follower, prev);
    assert Answer(n, i, follower).success == SameTermAt(log, follower, prev);
  }

  /** Let `m` be the largest index, from the leader's log length at its election down, where
      both logs carry the same term (0 if none). With `a` answers received, however many
      heartbeats were lost and whatever was appended meanwhile: next_index has come down one
      place an answer until it reaches m + 1 and then stays; the refusals number at most the
      length of the log at the election; and match_index is m once it is reached, else 0. */
  lemma {:induction false} BackOffConverges(n: Node, i: nat, follower: seq<Entry>, rounds: seq<Round>, m: nat)
    requires Leading(n, i) && n.next[i] == |n.log| + 1 && n.matched[i] == 0
    requires IsMeeting(n.log, follower, |n.log|, m)
    ensures var after, a := After(n, i, follower, rounds), Answers(rounds);
            && n.log <= after.log && after.term == n.term && after.members == n.members
            && after.next[i] == (if a < |n.log| - m then |n.log| - a else m) + 1
            && after.matched[i] == (if a <= |n.log| - m then 0 else m)
            && Refusals(n, i, follower, rounds) == if a < |n.log| - m then a else |n.log| - m
  {
    if rounds != [] {
      var last := |rounds| - 1;
      BackOffConverges(n, i, follower, rounds[..last], m);
      OneRound(n.log, After(n, i, follower, rounds[..last]), i, follower, rounds[last], m);
    }
  }

  /** Corollary in the caller's terms: a non-zero match_index always names an index where both
      logs carry the same term. */
  lemma MatchIsReal(n: Node, i: nat, follower: seq<Entry>, rounds: seq<Round>)
    requires Leading(n, i) && n.next[i] == |n.log| + 1 && n.matched[i] == 0
    ensures var after := After(n, i, follower, rounds);
            after.matched[i] <= |n.log| && SameTermAt(after.log, follower, after.matched[i])
  {
    var m := MeetingExists(n.log, follower, |n.log|);
    BackOffConverges(n, i, follower, rounds, m);
  }

  /** A leader starts from where BackOffConverges begins. */
  lemma ElectionStartsBackOff(n: Node, votes: nat, i: nat)
    requires NodeInv(n) && n.role == Candidate && votes > |n.members| / 2 && i < |n.members|
    ensures var l := CloseElection(n, votes);
            Leading(l, i) && l.next[i] == |l.log| + 1 && l.matched[i] == 0 && l.log == n.log
  {
  }

  // ---- in a cluster -------------------------------------------------------------------------

  /** No two members' logs ever carry a common term, so two real logs meet only at 0. */
  lemma MembersMeetAtZero(trace: seq<RaftElection.Cluster>, steps: seq<RaftElection.Step>, ids: seq<string>,
                          i: nat, j: nat, l: nat, a: nat)
    requires RaftElection.Run(trace, steps, ids) && i < |trace| && j < |trace|
    requires |trace[i].nodes| == |trace[j].nodes| == |ids| && l < |ids| && a < |ids| && l != a
    ensures IsMeeting(trace[i].nodes[l].log, trace[j].nodes[a].log, |trace[i].nodes[l].log|, 0)
  {
    var leader, follower := trace[i].nodes[l].log, trace[j].nodes[a].log;
    forall k | 0 < k <= |leader|
      ensures !SameTermAt(leader, follower, k)
    {
      if SameTermAt(leader, follower, k) {
        RaftElection.EntriesAgree(trace, steps, ids, i, j, l, a, k - 1, k - 1);
      }
    }
  }

  /** Against any real peer a new leader's match_index stays 0 and its next_index comes down to 1,
      after exactly as many refusals as its log is long: heartbeats carry no entries. */
  lemma MembersNeverMatch(trace: seq<RaftElection.Cluster>, steps: seq<RaftElection.Step>, ids: seq<string>,
                          i: nat, j: nat, l: nat, a: nat, rounds: seq<Round>)
    requires RaftElection.Run(trace, steps, ids) && i < |trace| && j < |trace|
    requires |trace[i].nodes| == |trace[j].nodes| == |ids| && l < |ids| && a < |ids| && l != a
    requires Leading(trace[i].nodes[l], a)
    requires trace[i].nodes[l].next[a] == |trace[i].nodes[l].log| + 1 && trace[i].nodes[l].matched[a] == 0
    ensures var n, follower := trace[i].nodes[l], trace[j].nodes[a].log;
            var after, answers, length := After(n, a, follower, rounds), Answers(rounds), |n.log|;
            && after.matched[a] == 0
            && after.next[a] == (if answers < length then length - answers else 0) + 1
            && Refusals(n, a, follower, rounds) == if answers < length then answers else length
  {
    MembersMeetAtZero(trace, steps, ids, i, j, l, a);
    BackOffConverges(trace[i].nodes[l], a, trace[j].nodes[a].log, rounds, 0);
  }
}
