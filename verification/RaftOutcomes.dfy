/** What each region of src/distributed/raft.c comes to, said without its loop: who wins an
    election, when a vote is granted, and what a round of heartbeats leaves behind. */
module RaftOutcomes {
  import opened Base
  import opened RaftNode
  import RE = RaftElection

  // ---- elections --------------------------------------------------------------------------

  /** Member `i` is another node, and its reply came. */
  predicate Heard<T>(n: Node, replies: seq<Option<T>>, i: nat)
    requires |replies| == |n.members|
  {
    i < |replies| && n.members[i] != n.id && replies[i].Some?
  }

  /** The places from `lo` on whose reply grants the vote. */
  ghost function Granting(n: Node, replies: seq<Option<VoteReply>>, lo: nat): set<nat>
    requires |replies| == |n.members|
  {
    set i: nat | lo <= i < |replies| && Heard(n, replies, i) && replies[i].value.granted
  }

  predicate NewerVote(n: Node, replies: seq<Option<VoteReply>>, i: nat, term: nat)
    requires |replies| == |n.members|
  {
    Heard(n, replies, i) && replies[i].value.term > term
  }

  /** `f` is the first place from `lo` on whose reply is of a term newer than `term`. */
  ghost predicate FirstNewerVote(n: Node, replies: seq<Option<VoteReply>>, lo: nat, f: nat, term: nat)
    requires |replies| == |n.members|
  {
    lo <= f && NewerVote(n, replies, f, term) && forall i :: lo <= i < f ==> !NewerVote(n, replies, i, term)
  }

  ghost predicate NoNewerVote(n: Node, replies: seq<Option<VoteReply>>, lo: nat, term: nat)
    requires |replies| == |n.members|
  {
    forall i :: lo <= i < |replies| ==> !NewerVote(n, replies, i, term)
  }

  lemma GrantingNext(n: Node, replies: seq<Option<VoteReply>>, lo: nat)
    requires |replies| == |n.members| && lo < |replies|
    ensures |Granting(n, replies, lo)|
            == |Granting(n, replies, lo + 1)| + if Heard(n, replies, lo) && replies[lo].value.granted then 1 else 0
  {
    var here := if Heard(n, replies, lo) && replies[lo].value.granted then {lo} else {};
    assert Granting(n, replies, lo) == Granting(n, replies, lo + 1) + here;
  }

  lemma {:induction false} LoopCounts(n: Node, votes: nat, lo: nat, replies: seq<Option<VoteReply>>)
    requires |replies| == |n.members| && lo <= |replies|
    ensures NoNewerVote(n, replies, lo, n.term) ==>
              VoteLoop(n, votes, lo, replies) == (n, votes + |Granting(n, replies, lo)|)
    ensures forall f: nat :: FirstNewerVote(n, replies, lo, f, n.term) ==>
              VoteLoop(n, votes, lo, replies).0 == StepDown(n, replies[f].value.term)
    decreases |replies| - lo
  {
    if lo == |replies| {
      assert Granting(n, replies, lo) == {};
    } else {
      GrantingNext(n, replies, lo);
      if !NewerVote(n, replies, lo, n.term) {
        var more := if Heard(n, replies, lo) && replies[lo].value.granted then votes + 1 else votes;
        LoopCounts(n, more, lo + 1, replies);
        assert forall f: nat :: FirstNewerVote(n, replies, lo, f, n.term) ==>
            FirstNewerVote(n, replies, lo + 1, f, n.term);
      }
    }
  }

  lemma {:induction false} SomeFirst(n: Node, replies: seq<Option<VoteReply>>, lo: nat, term: nat) returns (f: nat)
    requires |replies| == |n.members| && lo <= |replies| && !NoNewerVote(n, replies, lo, term)
    ensures FirstNewerVote(n, replies, lo, f, term)
    decreases |replies| - lo
  {
    if NewerVote(n, replies, lo, term) {
      f := lo;
    } else {
      f := SomeFirst(n, replies, lo + 1, term);
    }
  }

  /** How an election ends. If no reply is of a newer term, the node has voted for itself in the
      next term, and leads if and only if its own vote and the replies that grant theirs are more
      than half of the members; a leader starts with every next_index one past its log and
      nothing matched. */
  lemma ElectionCounts(n: Node, replies: seq<Option<VoteReply>>)
    requires |replies| == |n.members| && n.role != Leader && NoNewerVote(n, replies, 0, n.term + 1)
    ensures var e, wins := Election(n, replies), 1 + |Granting(n, replies, 0)| > |n.members| / 2;
            && (e.role == Leader <==> wins) && (e.role == Candidate <==> !wins)
            && e.term == n.term + 1 && e.votedFor == n.id
            && e.id == n.id && e.members == n.members && e.log == n.log
            && (!wins ==> e.next == n.next && e.matched == n.matched)
            && (wins ==> |e.next| == |e.matched| == |n.members|
                         && forall i :: 0 <= i < |n.members| ==> e.next[i] == |n.log| + 1 && e.matched[i] == 0)
  {
    hide VoteLoop;
    var begun := BeginElection(n);
    assert Granting(begun, replies, 0) == Granting(n, replies, 0);
    assert forall i :: NewerVote(begun, replies, i, begun.term) == NewerVote(n, replies, i, n.term + 1);
    LoopCounts(begun, 1, 0, replies);
  }

  /** And if some reply is newer, the first such makes the node a follower in its term, without a
      vote and with nothing else changed. */
  lemma ElectionStepsDown(n: Node, replies: seq<Option<VoteReply>>, f: nat)
    requires |replies| == |n.members| && n.role != Leader && FirstNewerVote(n, replies, 0, f, n.term + 1)
    ensures Election(n, replies) == n.(role := Follower, term := replies[f].value.term, votedFor := "")
  {
    hide VoteLoop;
    var begun := BeginElection(n);
    assert forall i :: NewerVote(begun, replies, i, begun.term) == NewerVote(n, replies, i, n.term + 1);
    LoopCounts(begun, 1, 0, replies);
    assert FirstNewerVote(begun, replies, 0, f, begun.term);
  }

  /** So, of any node and any replies: it leads afterwards if and only if it did before, or it
      heard of no newer term and was granted a majority. */
  lemma LeadsExactly(n: Node, replies: seq<Option<VoteReply>>)
    requires |replies| == |n.members|
    ensures Election(n, replies).role == Leader
            <==> n.role == Leader
                 || (NoNewerVote(n, replies, 0, n.term + 1)
                     && 1 + |Granting(n, replies, 0)| > |n.members| / 2)
    ensures n.role == Leader ==> Election(n, replies) == n
  {
    hide Election;
    if n.role == Leader {
      LeaderStays(n, replies);
    } else if NoNewerVote(n, replies, 0, n.term + 1) {
      ElectionCounts(n, replies);
    } else {
      var f := SomeFirst(n, replies, 0, n.term + 1);
      ElectionStepsDown(n, replies, f);
    }
  }

  lemma LeaderStays(n: Node, replies: seq<Option<VoteReply>>)
    requires |replies| == |n.members| && n.role == Leader
    ensures Election(n, replies) == n
  {
  }

  /** A node starts as a follower in term 0, without a vote, a log or any leader index. */
  lemma StartsClean(id: string, members: seq<string>)
    ensures var n := Created(id, members);
            && NodeInv(n) && n.id == id && n.members == members && n.role == Follower && n.term == 0
            && n.votedFor == "" && n.log == []
            && forall i :: 0 <= i < |members| ==> n.next[i] == 0 && n.matched[i] == 0
  {
  }

  // ---- the receiver's side ----------------------------------------------------------------

  /** A vote is granted if and only if the term is not older, the vote of that term is free or
      already the candidate's, and the voter's log is not the newer one. The voter takes over a
      newer term as a follower, and its vote is then the candidate's or nobody's. */
  lemma VoteOutcome(n: Node, req: VoteRequest)
    ensures var (n', reply) := HandleVote(n, req);
            && (reply.granted
                <==> req.term >= n.term
                     && (req.term > n.term || n.votedFor == "" || n.votedFor == req.candidate)
                     && !(LastTerm(n.log) > req.lastTerm
                          || (LastTerm(n.log) == req.lastTerm && |n.log| > req.lastIndex)))
            && reply.term == n'.term == (if req.term > n.term then req.term else n.term)
            && n'.role == (if req.term > n.term then Follower else n.role)
            && n'.votedFor == (if reply.granted then req.candidate else if req.term > n.term then "" else n.votedFor)
            && n' == n.(term := n'.term, role := n'.role, votedFor := n'.votedFor)
  {
  }

  /** The consistency check holds exactly where the follower's log carries the previous entry. */
  lemma ConsistentExactly(log: seq<Entry>, prevIndex: nat, prevTerm: nat)
    ensures CheckLogConsistency(log, prevIndex, prevTerm)
            <==> prevIndex == 0 || exists k :: 0 <= k < |log| && k + 1 == prevIndex && log[k].term == prevTerm
  {
    assert prevIndex > 0 && prevIndex <= |log| ==> log[prevIndex - 1] == log[prevIndex - 1];
  }

  /** A heartbeat of a leader makes any member that is not in a newer term a follower of the
      leader's term, whatever it was, and changes nothing else; a member in a newer term stays. */
  lemma BeatAdopts(l: Node, i: nat, n: Node)
    requires l.role == Leader && LeaderIndexesFit(l) && i < |l.members|
    ensures var req, n' := BeatRequest(l, i), HandleBeat(n, BeatRequest(l, i));
            && (n.term <= l.term ==> n' == n.(term := l.term, role := Follower))
            && (n.term > l.term ==> n' == n)
            && req.leader == l.id && req.prevIndex + 1 == l.next[i]
            && (req.prevIndex > 0 ==> l.log[req.prevIndex - 1].term == req.prevTerm)
  {
  }

  /** A leader with data and memory appends, and nobody else does. */
  lemma AppendOutcome(n: Node, data: seq<byte>, memory: bool)
    ensures var (n', status) := AppendLog(n, data, memory);
            && (status == Ok <==> data != [] && n.role == Leader && memory)
            && (status == InvalidParam <==> data == [])
            && (status == Permission <==> data != [] && n.role != Leader)
            && (status == OutOfMemory <==> data != [] && n.role == Leader && !memory)
            && n' == n.(log := n.log + if status == Ok then [Entry(n.term, |n.log| + 1, data)] else [])
  {
    assert n.log + [] == n.log;
  }

  // ---- heartbeats -------------------------------------------------------------------------

  predicate NewerBeat(n: Node, replies: seq<Option<AppendReply>>, i: nat)
    requires |replies| == |n.members|
  {
    Heard(n, replies, i) && replies[i].value.term > n.term
  }

  /** One reply that is not newer: next and matched of that member, and of no other, move. */
  lemma ReplyMovesOne(n: Node, i: nat, reply: AppendReply)
    requires LeaderIndexesFit(n) && n.role == Leader && i < |n.members| && reply.term <= n.term
    ensures var n' := TakeBeatReply(n, i, reply);
            && n' == n.(next := n'.next, matched := n'.matched)
            && |n'.next| == |n'.matched| == |n.members|
            && (forall j :: 0 <= j < |n.members| && j != i ==> n'.next[j] == n.next[j] && n'.matched[j] == n.matched[j])
            && n'.matched[i] == (if reply.success then n.next[i] - 1 else n.matched[i])
            && n'.next[i] == if reply.success || n.next[i] == 1 then n.next[i] else n.next[i] - 1
  {
  }

  /** A reply of a newer term ends the leadership and moves nothing. */
  lemma ReplyEndsLeadership(n: Node, i: nat, reply: AppendReply)
    requires Shaped(n) && i < |n.members| && reply.term > n.term
    ensures TakeBeatReply(n, i, reply) == n.(role := Follower, term := reply.term, votedFor := "")
  {
  }

  /** Place `j` after a round that took the replies from `lo` up to `hi`. */
  ghost predicate PlaceFits(n: Node, n': Node, replies: seq<Option<AppendReply>>, lo: nat, hi: nat, j: nat)
    requires Shaped(n) && Shaped(n') && |replies| == |n.members| == |n'.members| && j < |n.members|
  {
    if lo <= j < hi && Heard(n, replies, j) then
      if replies[j].value.success then n'.matched[j] + 1 == n.next[j] == n'.next[j]
      else n'.matched[j] == n.matched[j] && n'.next[j] == if n.next[j] > 1 then n.next[j] - 1 else n.next[j]
    else n'.matched[j] == n.matched[j] && n'.next[j] == n.next[j]
  }

  /** How a round of heartbeats ends: with `f` the first place whose reply is newer, or the number
      of members, each place below `f` takes its own reply and every other is as it was; and the
      leader is a follower of the newer term, without a vote, or still leads. */
  ghost predicate RoundFits(n: Node, n': Node, replies: seq<Option<AppendReply>>, lo: nat, f: nat)
    requires Shaped(n) && |replies| == |n.members| && f <= |replies| && (f < |replies| ==> Heard(n, replies, f))
  {
    && Shaped(n') && n'.members == n.members && n'.id == n.id && n'.log == n.log
    && (forall j :: 0 <= j < |n.members| ==> PlaceFits(n, n', replies, lo, f, j))
    && n'.role == (if f < |replies| then Follower else n.role)
    && n'.term == (if f < |replies| then replies[f].value.term else n.term)
    && n'.votedFor == (if f < |replies| then "" else n.votedFor)
  }

  ghost predicate FirstNewerBeat(n: Node, replies: seq<Option<AppendReply>>, lo: nat, f: nat)
    requires |replies| == |n.members|
  {
    && lo <= f <= |replies| && (f < |replies| ==> NewerBeat(n, replies, f))
    && forall i :: lo <= i < f ==> !NewerBeat(n, replies, i)
  }

  lemma {:induction false} LoopFits(n: Node, lo: nat, replies: seq<Option<AppendReply>>, f: nat)
    requires LeaderIndexesFit(n) && n.role == Leader && |replies| == |n.members| && FirstNewerBeat(n, replies, lo, f)
    ensures RoundFits(n, BeatLoop(n, lo, replies), replies, lo, f)
    decreases |replies| - lo
  {
    hide Heard;
    if lo < |replies| {
      var n', last := BeatLoop(n, lo, replies), BeatLoop(n, lo + 1, replies);
      if !Heard(n, replies, lo) {
        LoopFits(n, lo + 1, replies, f);
        assert n' == last by { NotHeardSkips(n, lo, replies); }
        assert forall j :: 0 <= j < |n.members| && PlaceFits(n, n', replies, lo + 1, f, j) ==>
            PlaceFits(n, n', replies, lo, f, j);
      } else if NewerBeat(n, replies, lo) {
        HeardTakes(n, lo, replies);
        ReplyEndsLeadership(n, lo, replies[lo].value);
      } else {
        HeardTakes(n, lo, replies);
        var n1 := TakeBeatReply(n, lo, replies[lo].value);
        ReplyMovesOne(n, lo, replies[lo].value);
        SameHeard(n, n1, replies, lo, f);
        LoopFits(n1, lo + 1, replies, f);
        assert forall j :: 0 <= j < |n.members| && PlaceFits(n1, n', replies, lo + 1, f, j) ==>
            PlaceFits(n, n', replies, lo, f, j);
      }
    }
  }

  lemma SameHeard(n: Node, n1: Node, replies: seq<Option<AppendReply>>, lo: nat, f: nat)
    requires |replies| == |n.members| && n1.members == n.members && n1.id == n.id && n1.term == n.term
    requires FirstNewerBeat(n, replies, lo, f) && lo < |replies| && !NewerBeat(n, replies, lo)
    ensures forall i :: Heard(n1, replies, i) == Heard(n, replies, i)
    ensures FirstNewerBeat(n1, replies, lo + 1, f)
  {
    assert forall i :: NewerBeat(n1, replies, i) == NewerBeat(n, replies, i);
  }

  lemma NotHeardSkips(n: Node, lo: nat, replies: seq<Option<AppendReply>>)
    requires Shaped(n) && |replies| == |n.members| && lo < |replies| && !Heard(n, replies, lo)
    ensures BeatLoop(n, lo, replies) == BeatLoop(n, lo + 1, replies)
  {
  }

  lemma HeardTakes(n: Node, lo: nat, replies: seq<Option<AppendReply>>)
    requires Shaped(n) && |replies| == |n.members| && lo < |replies| && Heard(n, replies, lo)
    ensures replies[lo].Some?
    ensures BeatLoop(n, lo, replies)
            == var n1 := TakeBeatReply(n, lo, replies[lo].value);
               if replies[lo].value.term > n.term then n1 else BeatLoop(n1, lo + 1, replies)
  {
  }

  /** Every round of every leader, whatever the replies. */
  lemma HeartbeatOutcome(n: Node, replies: seq<Option<AppendReply>>, f: nat)
    requires LeaderIndexesFit(n) && n.role == Leader && |replies| == |n.members| && FirstNewerBeat(n, replies, 0, f)
    ensures RoundFits(n, Heartbeat(n, replies), replies, 0, f)
  {
    LoopFits(n, 0, replies, f);
  }

  lemma {:induction false} SomeFirstBeat(n: Node, replies: seq<Option<AppendReply>>, lo: nat) returns (f: nat)
    requires |replies| == |n.members| && lo <= |replies|
    ensures FirstNewerBeat(n, replies, lo, f)
    decreases |replies| - lo
  {
    if lo == |replies| || NewerBeat(n, replies, lo) {
      f := lo;
    } else {
      f := SomeFirstBeat(n, replies, lo + 1);
    }
  }

  /** In event `e` leader `n` heard a success from member `j`, for the index `m`. */
  ghost predicate HeardSuccess(n: Node, e: Event, j: nat, m: nat) {
    && n.role == Leader && e.Beats? && |e.replies| == |n.members| && Heard(n, e.replies, j)
    && e.replies[j].value.success && j < |n.next| && n.next[j] == m + 1
  }

  lemma MatchMoves(n: Node, e: Event, j: nat)
    requires NodeInv(n) && EventFits(n, e) && Happens(n, e).role == Leader
    requires j < |Happens(n, e).matched| && Happens(n, e).matched[j] > 0
    ensures n.role == Leader && n.term == Happens(n, e).term && j < |n.matched|
    ensures Happens(n, e).matched[j] == n.matched[j] || HeardSuccess(n, e, j, Happens(n, e).matched[j])
  {
    match e {
      case TimesOut(votes) =>
        LeadsExactly(n, votes);
        if n.role != Leader {
          ElectionCounts(n, votes);
        }
      case Beats(replies) =>
        if n.role == Leader {
          var f := SomeFirstBeat(n, replies, 0);
          HeartbeatOutcome(n, replies, f);
          assert PlaceFits(n, Happens(n, e), replies, 0, f, j);
        }
      case Appends(data, memory) => AppendOutcome(n, data, memory);
      case AskedForVote(ballot) => VoteOutcome(n, ballot);
      case Beaten(beat) =>
    }
  }

  /** A leader's match_index of `j` is non-zero only because `j` itself answered one of its
      heartbeats with success, for that very index, in the same term and leadership. */
  lemma {:induction false} MatchWasHeard(trace: seq<Node>, events: seq<Event>, t: nat, j: nat) returns (k: nat)
    requires NodeRun(trace, events) && t < |trace| && trace[t].role == Leader
    requires trace[0].role != Leader && j < |trace[t].matched| && trace[t].matched[j] > 0
    ensures k < t && HeardSuccess(trace[k], events[k], j, trace[t].matched[j])
    ensures forall m :: k <= m <= t ==> trace[m].role == Leader && trace[m].term == trace[t].term
    decreases t
  {
    NodeRunKeeps(trace, events, t - 1, t - 1);
    MatchMoves(trace[t - 1], events[t - 1], j);
    if HeardSuccess(trace[t - 1], events[t - 1], j, trace[t].matched[j]) {
      k := t - 1;
    } else {
      k := MatchWasHeard(trace, events, t - 1, j);
    }
  }

  // ---- a cluster does elect ---------------------------------------------------------------

  /** Member `c` of a fresh cluster has asked everybody below `k`, and all of them granted. */
  ghost predicate Polling(s: RE.Cluster, ids: seq<string>, c: nat, k: nat) {
    && RE.Sized(s, ids) && c < |ids| && k <= |ids|
    && s.nodes[c] == BeginElection(Created(ids[c], ids))
    && s.asking[c] == RE.Asking(k, if c < k then k else k + 1)
    && (forall j :: 0 <= j < |ids| && j != c ==> s.asking[j].Idle?)
    && (forall j :: k <= j < |ids| && j != c ==> s.nodes[j] == Created(ids[j], ids))
  }

  lemma RunOn(trace: seq<RE.Cluster>, steps: seq<RE.Step>, ids: seq<string>, step: RE.Step)
    returns (trace': seq<RE.Cluster>, steps': seq<RE.Step>)
    requires RE.Run(trace, steps, ids) && RE.Sized(trace[|steps|], ids) && RE.Enabled(trace[|steps|], ids, step)
    ensures steps' == steps + [step] && RE.Run(trace', steps', ids) && RE.Sized(trace'[|steps'|], ids)
    ensures trace'[|steps'|] == RE.Do(trace[|steps|], ids, step)
  {
    hide RE.Do, RE.Enabled, RE.Sized;
    var next := RE.Do(trace[|steps|], ids, step);
    trace', steps' := trace + [next], steps + [step];
    forall i | 0 <= i < |steps'|
      ensures RE.Sized(trace'[i], ids) && RE.Enabled(trace'[i], ids, steps'[i])
              && trace'[i + 1] == RE.Do(trace'[i], ids, steps'[i])
    {
      if i < |steps| {
        assert trace'[i] == trace[i] && trace'[i + 1] == trace[i + 1] && steps'[i] == steps[i];
      }
    }
    RE.SizedAt(trace', steps', ids, |steps'|);
  }

  lemma PollsOne(s: RE.Cluster, ids: seq<string>, c: nat, k: nat)
    requires Polling(s, ids, c, k) && k < |ids|
    ensures var step := if k == c then RE.PassSelf(c) else RE.AskPeer(c, true);
            && RE.Enabled(s, ids, step)
            && (RE.Sized(RE.Do(s, ids, step), ids) ==> Polling(RE.Do(s, ids, step), ids, c, k + 1))
  {
    if k != c {
      VoteOutcome(s.nodes[k], BallotRequest(s.nodes[c]));
    }
  }

  lemma {:induction false} PollsAll(trace: seq<RE.Cluster>, steps: seq<RE.Step>, ids: seq<string>, c: nat, k: nat)
    returns (trace': seq<RE.Cluster>, steps': seq<RE.Step>)
    requires RE.Run(trace, steps, ids) && Polling(trace[|steps|], ids, c, k)
    ensures RE.Run(trace', steps', ids) && Polling(trace'[|steps'|], ids, c, |ids|)
    decreases |ids| - k
  {
    hide RE.Do, RE.Enabled, RE.Run;
    if k == |ids| {
      trace', steps' := trace, steps;
    } else {
      var step := if k == c then RE.PassSelf(c) else RE.AskPeer(c, true);
      RunLength(trace, steps, ids);
      PollsOne(trace[|steps|], ids, c, k);
      trace', steps' := RunOn(trace, steps, ids, step);
      RunLength(trace', steps', ids);
      trace', steps' := PollsAll(trace', steps', ids, c, k + 1);
      RunLength(trace', steps', ids);
    }
  }

  lemma RunLength(trace: seq<RE.Cluster>, steps: seq<RE.Step>, ids: seq<string>)
    requires RE.Run(trace, steps, ids)
    ensures |trace| == |steps| + 1
  {
  }

  lemma StartsPolling(ids: seq<string>, c: nat)
    requires RE.Members(ids) && c < |ids|
    ensures RE.Sized(RE.Init(ids), ids) && RE.Enabled(RE.Init(ids), ids, RE.Start(c))
    ensures var s := RE.Do(RE.Init(ids), ids, RE.Start(c)); RE.Sized(s, ids) ==> Polling(s, ids, c, 0)
  {
    RE.InitFits(ids);
  }

  lemma PollIsWon(s: RE.Cluster, ids: seq<string>, c: nat)
    requires Polling(s, ids, c, |ids|)
    ensures RE.Enabled(s, ids, RE.Finish(c))
    ensures var s' := RE.Do(s, ids, RE.Finish(c));
            c < |s'.nodes| && s'.nodes[c].role == Leader && s'.nodes[c].term == 1 && (1, c) in s'.leaders
  {
  }

  /** In a cluster of any size any member can be elected: where all calls go through, it leads
      term 1. So the safety theorems speak of clusters that do elect. */
  lemma AnyoneCanLead(ids: seq<string>, c: nat) returns (trace: seq<RE.Cluster>, steps: seq<RE.Step>)
    requires RE.Members(ids) && c < |ids|
    ensures RE.Run(trace, steps, ids)
    ensures var s := trace[|steps|];
            c < |s.nodes| && s.nodes[c].role == Leader && s.nodes[c].term == 1 && (1, c) in s.leaders
  {
    hide RE.Do, RE.Enabled;
    StartsPolling(ids, c);
    trace, steps := [RE.Init(ids)], [];
    trace, steps := RunOn(trace, steps, ids, RE.Start(c));
    trace, steps := PollsAll(trace, steps, ids, c, 0);
    PollIsWon(trace[|steps|], ids, c);
    trace, steps := RunOn(trace, steps, ids, RE.Finish(c));
  }
}
