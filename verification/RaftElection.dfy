/** A cluster of raft.c nodes as a step system, and the safety of its elections.

    A node in the middle of its vote loop holds its mutex, so it runs no other region: every
    step that needs the mutex of node `j` asks for `asking[j].Idle?`. A call may fail before or
    after the peer has acted on it: a request stays in flight once sent, and the peer may act
    on it at any later time, any number of times, with the reply lost. What a heartbeat's reply
    says is arbitrary; what a vote's reply says is what the peer's handler answers. */
module RaftElection {
  import opened Base
  import opened RaftNode

  /** A node is idle, or inside its vote loop at member `at` with `votes` counted so far. */
  datatype Phase = Idle | Asking(at: nat, votes: nat)

  datatype VoteMsg = VoteMsg(from: nat, to: nat, req: VoteRequest)
  datatype BeatMsg = BeatMsg(to: nat, req: AppendRequest)

  /** A vote cast: for whom, and the last term and length of the voter's log at that moment. */
  datatype Ballot = Ballot(candidate: nat, lastTerm: nat, lastIndex: nat)

  /** `ballots` and `leaders` record history: member j's vote in each term, and every
      (term, member) that won an election. No step looks at them. */
  datatype Cluster = Cluster(
    nodes: seq<Node>,
    asking: seq<Phase>,
    votesInFlight: set<VoteMsg>,
    beatsInFlight: set<BeatMsg>,
    ballots: seq<map<nat, Ballot>>,
    leaders: set<(nat, nat)>)

  datatype Step =
    | Start(c: nat)
    | PassSelf(c: nat)
    | AskPeer(c: nat, replied: bool)
    | Finish(c: nat)
    | LateVote(msg: VoteMsg)
    | Beat(l: nat, i: nat, replied: bool, reply: AppendReply)
    | LateBeat(beat: BeatMsg)
    | Append(l: nat, data: seq<byte>, memory: bool)

  ghost predicate Members(ids: seq<string>) {
    && (forall i :: 0 <= i < |ids| ==> ids[i] != "")
    && (forall i, j :: 0 <= i < j < |ids| ==> ids[i] != ids[j])
  }

  function Init(ids: seq<string>): Cluster {
    Cluster(seq(|ids|, i requires 0 <= i < |ids| => Created(ids[i], ids)),
            seq(|ids|, _ => Idle), {}, {}, seq(|ids|, _ => map[]), {})
  }

  // ---- the steps ----------------------------------------------------------------------

  ghost predicate Sized(s: Cluster, ids: seq<string>) {
    && Members(ids)
    && |s.nodes| == |s.asking| == |s.ballots| == |ids|
    && (forall i :: 0 <= i < |ids| ==> NodeSized(s.nodes[i], ids, i))
    && (forall m :: m in s.votesInFlight ==> m.from < |ids| && m.to < |ids|)
    && (forall b :: b in s.beatsInFlight ==> b.to < |ids|)
  }

  ghost predicate NodeSized(n: Node, ids: seq<string>, i: nat)
    requires i < |ids|
  {
    n.id == ids[i] && n.members == ids && LeaderIndexesFit(n)
  }

  ghost predicate Enabled(s: Cluster, ids: seq<string>, step: Step)
    requires Sized(s, ids)
  {
    match step
    case Start(c) => c < |ids| && s.asking[c].Idle? && s.nodes[c].role != Leader
    case PassSelf(c) => InLoop(s, ids, c) && s.asking[c].at == c
    case AskPeer(c, replied) =>
      InLoop(s, ids, c) && s.asking[c].at != c && (replied ==> s.asking[s.asking[c].at].Idle?)
    case Finish(c) =>
      c < |ids| && s.asking[c].Asking? && (s.asking[c].at >= |ids| || s.nodes[c].role != Candidate)
    case LateVote(msg) => msg in s.votesInFlight && s.asking[msg.to].Idle?
    case Beat(l, i, replied, _) =>
      && l < |ids| && i < |ids| && i != l && s.nodes[l].role == Leader && s.asking[l].Idle?
      && (replied ==> s.asking[i].Idle?)
    case LateBeat(beat) => beat in s.beatsInFlight && s.asking[beat.to].Idle?
    case Append(l, _, _) => l < |ids| && s.asking[l].Idle?
  }

  /** Still in the vote loop, not broken off by a higher term. */
  ghost predicate InLoop(s: Cluster, ids: seq<string>, c: nat)
    requires Sized(s, ids)
  {
    c < |ids| && s.asking[c].Asking? && s.asking[c].at < |ids| && s.nodes[c].role == Candidate
  }

  ghost function Do(s: Cluster, ids: seq<string>, step: Step): Cluster
    requires Sized(s, ids) && Enabled(s, ids, step)
  {
    match step
    case Start(c) => DoStart(s, c)
    case PassSelf(c) => s.(asking := s.asking[c := Asking(s.asking[c].at + 1, s.asking[c].votes)])
    case AskPeer(c, replied) =>
      var msg := VoteMsg(c, s.asking[c].at, BallotRequest(s.nodes[c]));
      var sent := s.(votesInFlight := s.votesInFlight + {msg});
      if replied then
        var (voted, reply) := Deliver(sent, msg);
        TakeReply(voted, c, reply)
      else
        sent.(asking := s.asking[c := Asking(s.asking[c].at + 1, s.asking[c].votes)])
    case Finish(c) => DoFinish(s, c)
    case LateVote(msg) => Deliver(s, msg).0
    case Beat(l, i, replied, reply) =>
      var req := BeatRequest(s.nodes[l], i);
      var sent := s.(beatsInFlight := s.beatsInFlight + {BeatMsg(i, req)});
      if replied then
        var beaten := sent.(nodes := s.nodes[i := HandleBeat(s.nodes[i], req)]);
        beaten.(nodes := beaten.nodes[l := TakeBeatReply(s.nodes[l], i, reply)])
      else sent
    case LateBeat(beat) =>
      s.(nodes := s.nodes[beat.to := HandleBeat(s.nodes[beat.to], beat.req)])
    case Append(l, data, memory) =>
      s.(nodes := s.nodes[l := AppendLog(s.nodes[l], data, memory).0])
  }

  function DoStart(s: Cluster, c: nat): Cluster
    requires c < |s.nodes| == |s.asking| == |s.ballots|
  {
    var n := BeginElection(s.nodes[c]);
    s.(nodes := s.nodes[c := n],
       asking := s.asking[c := Asking(0, 1)],
       ballots := s.ballots[c := Cast(s.ballots[c], n.term, Ballot(c, LastTerm(n.log), |n.log|))])
  }

  /** The first vote of a term is the one recorded. */
  function Cast(votes: map<nat, Ballot>, term: nat, ballot: Ballot): map<nat, Ballot> {
    if term in votes then votes else votes[term := ballot]
  }

  /** Member `msg.to` acts on a vote request. */
  function Deliver(s: Cluster, msg: VoteMsg): (Cluster, VoteReply)
    requires msg.to < |s.nodes| == |s.ballots|
  {
    var j := msg.to;
    var (n, reply) := HandleVote(s.nodes[j], msg.req);
    var ballot := Ballot(msg.from, LastTerm(n.log), |n.log|);
    (s.(nodes := s.nodes[j := n],
        ballots := if reply.granted then s.ballots[j := Cast(s.ballots[j], n.term, ballot)] else s.ballots),
     reply)
  }

  function TakeReply(s: Cluster, c: nat, reply: VoteReply): Cluster
    requires c < |s.nodes| == |s.asking| && s.asking[c].Asking?
  {
    var (n, votes) := CountVote(s.nodes[c], s.asking[c].votes, reply);
    s.(nodes := s.nodes[c := n], asking := s.asking[c := Asking(s.asking[c].at + 1, votes)])
  }

  function DoFinish(s: Cluster, c: nat): Cluster
    requires c < |s.nodes| == |s.asking| && s.asking[c].Asking?
  {
    var n := CloseElection(s.nodes[c], s.asking[c].votes);
    s.(nodes := s.nodes[c := n],
       asking := s.asking[c := Idle],
       leaders := if n.role == Leader then s.leaders + {(n.term, c)} else s.leaders)
  }

  // ---- the invariant ------------------------------------------------------------------

  ghost predicate VotedFor(s: Cluster, j: nat, term: nat, c: nat)
    requires j < |s.ballots|
  {
    term in s.ballots[j] && s.ballots[j][term].candidate == c
  }

  ghost function Voters(s: Cluster, term: nat, c: nat): set<nat> {
    set j: nat | j < |s.ballots| && VotedFor(s, j, term, c)
  }

  /** Those voters a candidate whose loop is at member `at` can have counted. */
  ghost function Counted(s: Cluster, term: nat, c: nat, at: nat): set<nat> {
    set j: nat | j < |s.ballots| && (j < at || j == c) && VotedFor(s, j, term, c)
  }

  /** `b` was cast by a log no newer than the one its candidate stood with. */
  predicate NoNewer(b: Ballot, own: Ballot) {
    b.lastTerm < own.lastTerm || (b.lastTerm == own.lastTerm && b.lastIndex <= own.lastIndex)
  }

  /** A vote is for a term already reached and `votedFor` still names the current one; whoever
      got it stood in that term, with a log no older than the voter's. */
  ghost predicate BallotFits(s: Cluster, ids: seq<string>, j: nat, t: nat)
    requires Sized(s, ids) && j < |ids| && t in s.ballots[j]
  {
    var c := s.ballots[j][t].candidate;
    && t <= s.nodes[j].term
    && c < |ids|
    && (t == s.nodes[j].term ==> s.nodes[j].votedFor == ids[c])
    && VotedFor(s, c, t, c) && NoNewer(s.ballots[j][t], s.ballots[c][t])
  }

  /** A request in flight says what its sender stood with. */
  ghost predicate RequestFits(s: Cluster, ids: seq<string>, m: VoteMsg)
    requires Sized(s, ids) && m.from < |ids|
  {
    && m.req.candidate == ids[m.from]
    && m.req.term in s.ballots[m.from]
    && s.ballots[m.from][m.req.term] == Ballot(m.from, m.req.lastTerm, m.req.lastIndex)
  }

  ghost predicate CandidateFits(s: Cluster, ids: seq<string>, c: nat)
    requires Sized(s, ids) && c < |ids|
  {
    var n := s.nodes[c];
    && (s.asking[c].Asking? ==> n.role != Leader)
    && (s.asking[c].Asking? && n.role == Candidate ==>
          && n.term in s.ballots[c]
          && s.ballots[c][n.term] == Ballot(c, LastTerm(n.log), |n.log|)
          && s.asking[c].votes <= |Counted(s, n.term, c, s.asking[c].at)|)
  }

  ghost predicate LeaderFits(s: Cluster, ids: seq<string>, term: nat, c: nat)
  {
    c < |ids| && |Voters(s, term, c)| > |ids| / 2
  }

  /** A leader, and the author of any entry in a member's log, won that term's election. */
  ghost predicate OwnerFits(s: Cluster, ids: seq<string>, c: nat)
    requires Sized(s, ids) && c < |ids|
  {
    && LogWellFormed(s.nodes[c].log, s.nodes[c].term)
    && (s.nodes[c].role == Leader ==> (s.nodes[c].term, c) in s.leaders)
    && forall k :: 0 <= k < |s.nodes[c].log| ==> (s.nodes[c].log[k].term, c) in s.leaders
  }

  ghost predicate Inv(s: Cluster, ids: seq<string>) {
    && Sized(s, ids)
    && (forall j, t {:trigger BallotFits(s, ids, j, t)} ::
          0 <= j < |ids| && t in s.ballots[j] ==> BallotFits(s, ids, j, t))
    && (forall m {:trigger RequestFits(s, ids, m)} :: m in s.votesInFlight ==> RequestFits(s, ids, m))
    && (forall c {:trigger CandidateFits(s, ids, c)} :: 0 <= c < |ids| ==> CandidateFits(s, ids, c))
    && (forall t, c {:trigger LeaderFits(s, ids, t, c)} :: (t, c) in s.leaders ==> LeaderFits(s, ids, t, c))
    && (forall c {:trigger OwnerFits(s, ids, c)} :: 0 <= c < |ids| ==> OwnerFits(s, ids, c))
  }

  // ---- what every step keeps ------------------------------------------------------------

  /** History only grows. */
  ghost predicate Grows(s: Cluster, s': Cluster) {
    && |s.ballots| == |s'.ballots|
    && (forall j, t :: 0 <= j < |s.ballots| && t in s.ballots[j] ==>
          t in s'.ballots[j] && s'.ballots[j][t] == s.ballots[j][t])
    && s.leaders <= s'.leaders
  }

  ghost predicate LogsGrow(s: Cluster, s': Cluster) {
    && |s.nodes| == |s'.nodes|
    && forall j :: 0 <= j < |s.nodes| ==> s.nodes[j].log <= s'.nodes[j].log && s.nodes[j].term <= s'.nodes[j].term
  }

  /** How a step may change member j: terms rise, a vote is only dropped for a higher term or
      when it was empty, a new vote is for the new current term, the log grows as a leader's. */
  ghost predicate NodeMoves(s: Cluster, s': Cluster, ids: seq<string>, j: nat)
    requires Sized(s, ids) && Sized(s', ids) && j < |ids|
  {
    var n, n' := s.nodes[j], s'.nodes[j];
    && n.term <= n'.term
    && (n'.term == n.term && n.votedFor != "" ==> n'.votedFor == n.votedFor)
    && (forall t :: t in s'.ballots[j] && t !in s.ballots[j] ==> t == n'.term && BallotFits(s', ids, j, t))
    && (n'.role == Leader ==> (n.role == Leader && n'.term == n.term) || (n'.term, j) in s'.leaders)
    && (n'.log == n.log
        || (n.role == Leader && exists e :: n'.log == n.log + [e] && e.term == n.term && e.index == |n'.log|))
  }

  ghost predicate Moves(s: Cluster, s': Cluster, ids: seq<string>) {
    && Sized(s, ids) && Sized(s', ids) && Grows(s, s')
    && (forall j {:trigger NodeMoves(s, s', ids, j)} :: 0 <= j < |ids| ==> NodeMoves(s, s', ids, j))
    && (forall m {:trigger RequestFits(s', ids, m)} ::
          m in s'.votesInFlight && m !in s.votesInFlight ==> RequestFits(s', ids, m))
    && (forall c {:trigger CandidateFits(s', ids, c)} ::
          0 <= c < |ids| && (s'.nodes[c] != s.nodes[c] || s'.asking[c] != s.asking[c]) ==> CandidateFits(s', ids, c))
    && (forall t, c {:trigger LeaderFits(s', ids, t, c)} ::
          (t, c) in s'.leaders && (t, c) !in s.leaders ==> LeaderFits(s', ids, t, c))
  }

  lemma VotersGrow(s: Cluster, s': Cluster, term: nat, c: nat, at: nat, at': nat)
    requires Grows(s, s') && at <= at'
    ensures |Voters(s, term, c)| <= |Voters(s', term, c)|
    ensures |Counted(s, term, c, at)| <= |Counted(s', term, c, at')|
  {
    SubsetSize(Voters(s, term, c), Voters(s', term, c));
    SubsetSize(Counted(s, term, c, at), Counted(s', term, c, at'));
  }

  lemma BallotKept(s: Cluster, s': Cluster, ids: seq<string>, j: nat, t: nat)
    requires Inv(s, ids) && Moves(s, s', ids) && j < |ids| && t in s'.ballots[j]
    ensures BallotFits(s', ids, j, t)
  {
    assert NodeMoves(s, s', ids, j);
    if t in s.ballots[j] {
      assert BallotFits(s, ids, j, t);
    }
  }

  lemma OwnerKept(s: Cluster, s': Cluster, ids: seq<string>, c: nat)
    requires Inv(s, ids) && Moves(s, s', ids) && c < |ids|
    ensures OwnerFits(s', ids, c)
  {
    assert NodeMoves(s, s', ids, c);
    assert OwnerFits(s, ids, c);
  }

  lemma CandidateKept(s: Cluster, s': Cluster, ids: seq<string>, c: nat)
    requires Inv(s, ids) && Moves(s, s', ids) && c < |ids|
    ensures CandidateFits(s', ids, c)
  {
    if s'.nodes[c] == s.nodes[c] && s'.asking[c] == s.asking[c] {
      assert CandidateFits(s, ids, c);
      if s.asking[c].Asking? {
        VotersGrow(s, s', s.nodes[c].term, c, s.asking[c].at, s.asking[c].at);
      }
    }
  }

  /** Every move keeps the invariant. */
  lemma MovesKeep(s: Cluster, s': Cluster, ids: seq<string>)
    requires Inv(s, ids) && Moves(s, s', ids)
    ensures Inv(s', ids) && LogsGrow(s, s')
  {
    forall j | 0 <= j < |ids|
      ensures s.nodes[j].log <= s'.nodes[j].log && s.nodes[j].term <= s'.nodes[j].term
    {
      assert NodeMoves(s, s', ids, j);
    }
    forall j, t | 0 <= j < |ids| && t in s'.ballots[j] ensures BallotFits(s', ids, j, t) {
      BallotKept(s, s', ids, j, t);
    }
    forall m | m in s'.votesInFlight ensures RequestFits(s', ids, m) {
      assert m in s.votesInFlight ==> RequestFits(s, ids, m);
    }
    forall c | 0 <= c < |ids| ensures CandidateFits(s', ids, c) {
      CandidateKept(s, s', ids, c);
    }
    forall t, c | (t, c) in s'.leaders ensures LeaderFits(s', ids, t, c) {
      if (t, c) in s.leaders {
        assert LeaderFits(s, ids, t, c);
        VotersGrow(s, s', t, c, 0, 0);
      }
    }
    forall c | 0 <= c < |ids| ensures OwnerFits(s', ids, c) {
      OwnerKept(s, s', ids, c);
    }
  }

  // ---- every step moves -----------------------------------------------------------------

  lemma InitFits(ids: seq<string>)
    requires Members(ids)
    ensures Inv(Init(ids), ids)
  {
  }

  lemma StartMoves(s: Cluster, ids: seq<string>, c: nat)
    requires Inv(s, ids) && Enabled(s, ids, Start(c))
    ensures Moves(s, DoStart(s, c), ids)
  {
    var s' := DoStart(s, c);
    var t := s'.nodes[c].term;
    assert t in s.ballots[c] ==> BallotFits(s, ids, c, t);
    assert NodeSized(s'.nodes[c], ids, c);
    assert Counted(s', t, c, 0) == {c} by {
      assert VotedFor(s', c, t, c);
    }
    assert CandidateFits(s', ids, c);
    assert BallotFits(s', ids, c, t);
    assert NodeMoves(s, s', ids, c);
  }

  lemma DeliverMoves(s: Cluster, ids: seq<string>, msg: VoteMsg)
    requires Inv(s, ids) && msg in s.votesInFlight && s.asking[msg.to].Idle?
    ensures var (s', reply) := Deliver(s, msg);
            && Moves(s, s', ids)
            && (reply.granted ==> VotedFor(s', msg.to, msg.req.term, msg.from))
  {
    hide OwnerFits, LeaderFits;
    var (s', reply) := Deliver(s, msg);
    var j, t := msg.to, s'.nodes[msg.to].term;
    assert RequestFits(s, ids, msg);
    assert NodeSized(s.nodes[j], ids, j) && NodeSized(s'.nodes[j], ids, j);
    assert CandidateFits(s', ids, j);
    if reply.granted {
      if t in s.ballots[j] {
        assert BallotFits(s, ids, j, t);
      } else {
        assert BallotFits(s', ids, j, t);
      }
    }
    assert NodeMoves(s, s', ids, j);
  }

  lemma TakeReplyMoves(s: Cluster, ids: seq<string>, c: nat, reply: VoteReply)
    requires Inv(s, ids) && InLoop(s, ids, c) && s.asking[c].at != c
    requires reply.granted ==> VotedFor(s, s.asking[c].at, s.nodes[c].term, c)
    ensures Moves(s, TakeReply(s, c, reply), ids)
  {
    hide OwnerFits, LeaderFits, NoNewer;
    var s' := TakeReply(s, c, reply);
    var t, at := s.nodes[c].term, s.asking[c].at;
    assert NodeSized(s.nodes[c], ids, c) && NodeSized(s'.nodes[c], ids, c);
    assert CandidateFits(s, ids, c);
    if reply.granted {
      assert Counted(s', t, c, at + 1) == Counted(s, t, c, at) + {at};
    } else {
      VotersGrow(s, s', t, c, at, at + 1);
    }
    assert CandidateFits(s', ids, c);
    assert NodeMoves(s, s', ids, c);
  }

  lemma SendMoves(s: Cluster, ids: seq<string>, c: nat, to: nat)
    requires Inv(s, ids) && InLoop(s, ids, c) && to < |ids|
    ensures Moves(s, s.(votesInFlight := s.votesInFlight + {VoteMsg(c, to, BallotRequest(s.nodes[c]))}), ids)
  {
    var msg := VoteMsg(c, to, BallotRequest(s.nodes[c]));
    var s' := s.(votesInFlight := s.votesInFlight + {msg});
    assert NodeSized(s.nodes[c], ids, c);
    assert CandidateFits(s, ids, c);
    assert RequestFits(s', ids, msg);
  }

  lemma AskPeerKeeps(s: Cluster, ids: seq<string>, c: nat, replied: bool)
    requires Inv(s, ids) && Enabled(s, ids, AskPeer(c, replied))
    ensures var s' := Do(s, ids, AskPeer(c, replied)); Inv(s', ids) && Grows(s, s') && LogsGrow(s, s')
  {
    var at := s.asking[c].at;
    var msg := VoteMsg(c, at, BallotRequest(s.nodes[c]));
    var sent := s.(votesInFlight := s.votesInFlight + {msg});
    SendMoves(s, ids, c, at);
    MovesKeep(s, sent, ids);
    if replied {
      DeliverMoves(sent, ids, msg);
      var (voted, reply) := Deliver(sent, msg);
      MovesKeep(sent, voted, ids);
      TakeReplyMoves(voted, ids, c, reply);
      MovesKeep(voted, TakeReply(voted, c, reply), ids);
    } else {
      var s' := TakeReply(sent, c, VoteReply(0, false));
      TakeReplyMoves(sent, ids, c, VoteReply(0, false));
      MovesKeep(sent, s', ids);
      assert s' == Do(s, ids, AskPeer(c, replied));
    }
  }

  lemma PassSelfMoves(s: Cluster, ids: seq<string>, c: nat)
    requires Inv(s, ids) && Enabled(s, ids, PassSelf(c))
    ensures Moves(s, Do(s, ids, PassSelf(c)), ids)
  {
    hide OwnerFits, LeaderFits, BallotFits, RequestFits;
    var s' := Do(s, ids, PassSelf(c));
    assert CandidateFits(s, ids, c);
    VotersGrow(s, s', s.nodes[c].term, c, c, c + 1);
    assert CandidateFits(s', ids, c);
  }

  lemma FinishMoves(s: Cluster, ids: seq<string>, c: nat)
    requires Inv(s, ids) && Enabled(s, ids, Finish(c))
    ensures Moves(s, DoFinish(s, c), ids)
  {
    hide OwnerFits, NoNewer, BallotFits, RequestFits;
    var s' := DoFinish(s, c);
    assert NodeSized(s.nodes[c], ids, c) && NodeSized(s'.nodes[c], ids, c);
    assert CandidateFits(s, ids, c);
    var t := s.nodes[c].term;
    if s'.nodes[c].role == Leader {
      SubsetSize(Counted(s, t, c, s.asking[c].at), Voters(s', t, c));
      assert LeaderFits(s', ids, t, c);
    }
    assert CandidateFits(s', ids, c);
    assert NodeMoves(s, s', ids, c);
  }

  lemma BeatReplyMoves(s: Cluster, ids: seq<string>, l: nat, i: nat, reply: AppendReply)
    requires Inv(s, ids) && l < |ids| && i < |ids| && s.nodes[l].role == Leader && s.asking[l].Idle?
    ensures 1 <= s.nodes[l].next[i] <= |s.nodes[l].log| + 1
    ensures Moves(s, s.(nodes := s.nodes[l := TakeBeatReply(s.nodes[l], i, reply)]), ids)
  {
    assert NodeSized(s.nodes[l], ids, l);
    var s' := s.(nodes := s.nodes[l := TakeBeatReply(s.nodes[l], i, reply)]);
    assert NodeSized(s'.nodes[l], ids, l);
    assert CandidateFits(s', ids, l);
    assert NodeMoves(s, s', ids, l);
  }

  lemma BeatSendMoves(s: Cluster, ids: seq<string>, beat: BeatMsg)
    requires Inv(s, ids) && beat.to < |ids|
    ensures Moves(s, s.(beatsInFlight := s.beatsInFlight + {beat}), ids)
  {
  }

  lemma BeatKeeps(s: Cluster, ids: seq<string>, step: Step)
    requires Inv(s, ids) && Enabled(s, ids, step) && step.Beat?
    ensures var s' := Do(s, ids, step); Inv(s', ids) && Grows(s, s') && LogsGrow(s, s')
  {
    hide Moves, Inv;
    assert Sized(s, ids) by { InvIsSized(s, ids); }
    var l, i := step.l, step.i;
    assert NodeSized(s.nodes[l], ids, l);
    var beat := BeatMsg(i, BeatRequest(s.nodes[l], i));
    var sent := s.(beatsInFlight := s.beatsInFlight + {beat});
    BeatSendMoves(s, ids, beat);
    MovesKeep(s, sent, ids);
    if step.replied {
      InvIsSized(sent, ids);
      var beaten := Do(sent, ids, LateBeat(beat));
      LateBeatMoves(sent, ids, LateBeat(beat));
      MovesKeep(sent, beaten, ids);
      InvIsSized(beaten, ids);
      BeatReplyMoves(beaten, ids, l, i, step.reply);
      MovesKeep(beaten, Do(s, ids, step), ids);
    }
  }

  lemma InvIsSized(s: Cluster, ids: seq<string>)
    requires Inv(s, ids)
    ensures Sized(s, ids)
  {
  }

  lemma LateBeatMoves(s: Cluster, ids: seq<string>, step: Step)
    requires Inv(s, ids) && Enabled(s, ids, step) && step.LateBeat?
    ensures Moves(s, Do(s, ids, step), ids)
  {
    var s' := Do(s, ids, step);
    var i := step.beat.to;
    assert NodeSized(s.nodes[i], ids, i) && NodeSized(s'.nodes[i], ids, i);
    assert CandidateFits(s', ids, i);
    assert NodeMoves(s, s', ids, i);
  }

  lemma AppendMoves(s: Cluster, ids: seq<string>, step: Step)
    requires Inv(s, ids) && Enabled(s, ids, step) && step.Append?
    ensures Moves(s, Do(s, ids, step), ids)
  {
    var s' := Do(s, ids, step);
    var l := step.l;
    assert NodeSized(s.nodes[l], ids, l) && NodeSized(s'.nodes[l], ids, l);
    assert CandidateFits(s', ids, l);
    assert NodeMoves(s, s', ids, l);
  }

  /** The invariant holds after every step; history, terms and logs only grow. */
  lemma StepKeeps(s: Cluster, ids: seq<string>, step: Step)
    requires Inv(s, ids) && Enabled(s, ids, step)
    ensures var s' := Do(s, ids, step); Inv(s', ids) && Grows(s, s') && LogsGrow(s, s')
  {
    if step.AskPeer? {
      AskPeerKeeps(s, ids, step.c, step.replied);
    } else if step.Beat? {
      BeatKeeps(s, ids, step);
    } else {
      match step {
        case Start(c) => StartMoves(s, ids, c);
        case PassSelf(c) => PassSelfMoves(s, ids, c);
        case Finish(c) => FinishMoves(s, ids, c);
        case LateVote(msg) => DeliverMoves(s, ids, msg);
        case LateBeat(_) => LateBeatMoves(s, ids, step);
        case Append(_, _, _) => AppendMoves(s, ids, step);
      }
      MovesKeep(s, Do(s, ids, step), ids);
    }
  }

  // ---- runs -----------------------------------------------------------------------------

  ghost predicate Run(trace: seq<Cluster>, steps: seq<Step>, ids: seq<string>) {
    && Members(ids)
    && |trace| == |steps| + 1
    && trace[0] == Init(ids)
    && forall i :: 0 <= i < |steps| ==>
         Sized(trace[i], ids) && Enabled(trace[i], ids, steps[i]) && trace[i + 1] == Do(trace[i], ids, steps[i])
  }

  lemma {:induction false} RunKeeps(trace: seq<Cluster>, steps: seq<Step>, ids: seq<string>, i: nat, j: nat)
    requires Run(trace, steps, ids) && i <= j < |trace|
    ensures Inv(trace[i], ids) && Inv(trace[j], ids) && Grows(trace[i], trace[j])
    ensures LogsGrow(trace[i], trace[j])
    decreases j
  {
    if j == 0 {
      InitFits(ids);
    } else {
      RunKeeps(trace, steps, ids, if i < j then i else j - 1, j - 1);
      StepKeeps(trace[j - 1], ids, steps[j - 1]);
    }
  }

  /** Whom a step delivers something to: the peer that acts on a request. */
  ghost predicate Reaches(s: Cluster, step: Step, j: nat)
  {
    match step
    case AskPeer(c, replied) => replied && c < |s.asking| && s.asking[c].Asking? && s.asking[c].at == j
    case LateVote(msg) => msg.to == j
    case Beat(_, i, replied, _) => replied && i == j
    case LateBeat(beat) => beat.to == j
    case _ => false
  }

  /** The peer a step reaches does what its handler does, with the request its sender made. */
  lemma PeersHandle(s: Cluster, ids: seq<string>, step: Step, j: nat)
    requires Sized(s, ids) && Enabled(s, ids, step) && j < |ids| && Reaches(s, step, j)
    ensures var s' := Do(s, ids, step);
            && |s'.nodes| == |ids|
            && (step.AskPeer? ==> s'.nodes[j] == HandleVote(s.nodes[j], BallotRequest(s.nodes[step.c])).0)
            && (step.LateVote? ==> s'.nodes[j] == HandleVote(s.nodes[j], step.msg.req).0)
            && (step.Beat? ==> s'.nodes[j] == HandleBeat(s.nodes[j], BeatRequest(s.nodes[step.l], j)))
            && (step.LateBeat? ==> s'.nodes[j] == HandleBeat(s.nodes[j], step.beat.req))
            && (s.asking[j].Idle? && s'.asking[j].Idle?)
  {
    hide HandleVote, HandleBeat, CountVote, TakeBeatReply;
    assert NodeSized(s.nodes[j], ids, j);
  }

  /** A request stays in flight once made, whether or not a reply came. */
  lemma RequestsStay(s: Cluster, ids: seq<string>, step: Step)
    requires Sized(s, ids) && Enabled(s, ids, step)
    ensures var s' := Do(s, ids, step);
            && s.votesInFlight <= s'.votesInFlight && s.beatsInFlight <= s'.beatsInFlight
            && (step.AskPeer? ==>
                  VoteMsg(step.c, s.asking[step.c].at, BallotRequest(s.nodes[step.c])) in s'.votesInFlight)
            && (step.Beat? ==> BeatMsg(step.i, BeatRequest(s.nodes[step.l], step.i)) in s'.beatsInFlight)
  {
    hide HandleVote, HandleBeat, CountVote, TakeBeatReply, CloseElection, BeginElection, AppendLog;
  }

  // ---- one election, from its start to its end ------------------------------------------

  /** What candidate `c` hears in a step: None if the call failed. */
  ghost function Answer(s: Cluster, ids: seq<string>, step: Step): Option<VoteReply>
    requires Sized(s, ids) && Enabled(s, ids, step) && step.AskPeer?
  {
    var msg := VoteMsg(step.c, s.asking[step.c].at, BallotRequest(s.nodes[step.c]));
    if step.replied then Some(Deliver(s, msg).1) else None
  }

  /** The node and the count that the vote loop will end with, if it hears `replies`. */
  ghost function LoopEnd(s: Cluster, ids: seq<string>, c: nat, replies: seq<Option<VoteReply>>): (Node, nat)
    requires Sized(s, ids) && c < |ids| == |replies| && s.asking[c].Asking?
  {
    if InLoop(s, ids, c) then VoteLoop(s.nodes[c], s.asking[c].votes, s.asking[c].at, replies)
    else (s.nodes[c], s.asking[c].votes)
  }

  ghost predicate Hears(s: Cluster, ids: seq<string>, c: nat, step: Step, replies: seq<Option<VoteReply>>)
    requires Sized(s, ids) && Enabled(s, ids, step) && |replies| == |ids|
  {
    step.AskPeer? && step.c == c ==> replies[s.asking[c].at] == Answer(s, ids, step)
  }

  lemma StartsLoop(s: Cluster, ids: seq<string>, c: nat, replies: seq<Option<VoteReply>>)
    requires Sized(s, ids) && Enabled(s, ids, Start(c)) && |replies| == |ids|
    ensures var s' := Do(s, ids, Start(c));
            Sized(s', ids) ==> LoopEnd(s', ids, c, replies) == VoteLoop(BeginElection(s.nodes[c]), 1, 0, replies)
  {
    assert NodeSized(s.nodes[c], ids, c);
  }

  lemma VoteLoopSteps(n: Node, votes: nat, i: nat, replies: seq<Option<VoteReply>>)
    requires |replies| == |n.members|
    ensures i >= |n.members| ==> VoteLoop(n, votes, i, replies) == (n, votes)
    ensures i < |n.members| && (n.members[i] == n.id || replies[i].None?) ==>
              VoteLoop(n, votes, i, replies) == VoteLoop(n, votes, i + 1, replies)
    ensures i < |n.members| && n.members[i] != n.id && replies[i].Some? ==>
              var (n', votes') := CountVote(n, votes, replies[i].value);
              VoteLoop(n, votes, i, replies)
              == if replies[i].value.term > n.term then (n', votes') else VoteLoop(n', votes', i + 1, replies)
  {
  }

  lemma OwnAskKeepsLoopEnd(s: Cluster, ids: seq<string>, step: Step, replies: seq<Option<VoteReply>>)
    requires Sized(s, ids) && Enabled(s, ids, step) && |replies| == |ids| && step.AskPeer?
    requires Hears(s, ids, step.c, step, replies)
    ensures var s' := Do(s, ids, step);
            Sized(s', ids) ==>
              s'.asking[step.c].Asking? && LoopEnd(s', ids, step.c, replies) == LoopEnd(s, ids, step.c, replies)
  {
    hide HandleVote, VoteLoop;
    var c, at, votes := step.c, s.asking[step.c].at, s.asking[step.c].votes;
    assert NodeSized(s.nodes[c], ids, c);
    assert s.nodes[c].members[at] != s.nodes[c].id;
    VoteLoopSteps(s.nodes[c], votes, at, replies);
    VoteLoopSteps(s.nodes[c], votes, at + 1, replies);
    VoteLoopSteps(s.nodes[c], votes + 1, at + 1, replies);
  }

  lemma OwnPassKeepsLoopEnd(s: Cluster, ids: seq<string>, c: nat, replies: seq<Option<VoteReply>>)
    requires Sized(s, ids) && Enabled(s, ids, PassSelf(c)) && |replies| == |ids|
    ensures var s' := Do(s, ids, PassSelf(c));
            Sized(s', ids) ==> s'.asking[c].Asking? && LoopEnd(s', ids, c, replies) == LoopEnd(s, ids, c, replies)
  {
    hide VoteLoop;
    assert NodeSized(s.nodes[c], ids, c);
    VoteLoopSteps(s.nodes[c], s.asking[c].votes, c, replies);
    VoteLoopSteps(s.nodes[c], s.asking[c].votes, c + 1, replies);
  }

  /** No other step touches a node in its vote loop. */
  lemma OthersKeepOff(s: Cluster, ids: seq<string>, c: nat, step: Step)
    requires Sized(s, ids) && Enabled(s, ids, step) && c < |ids| && s.asking[c].Asking?
    requires step != Finish(c) && step != PassSelf(c) && !(step.AskPeer? && step.c == c)
    ensures var s' := Do(s, ids, step);
            |s'.nodes| == |s'.asking| == |ids| && s'.nodes[c] == s.nodes[c] && s'.asking[c] == s.asking[c]
  {
    hide HandleVote, HandleBeat, CountVote, TakeBeatReply, CloseElection, BeginElection, AppendLog, BeatRequest;
  }

  /** A step of the loop, or of anyone else, leaves what the loop will end with as it was. */
  lemma StepKeepsLoopEnd(s: Cluster, ids: seq<string>, c: nat, step: Step, replies: seq<Option<VoteReply>>)
    requires Sized(s, ids) && Enabled(s, ids, step) && c < |ids| == |replies| && s.asking[c].Asking?
    requires step != Finish(c) && Hears(s, ids, c, step, replies)
    ensures var s' := Do(s, ids, step);
            Sized(s', ids) ==> s'.asking[c].Asking? && LoopEnd(s', ids, c, replies) == LoopEnd(s, ids, c, replies)
  {
    hide Do, Sized, Hears, VoteLoop;
    if step == PassSelf(c) {
      OwnPassKeepsLoopEnd(s, ids, c, replies);
    } else if step.AskPeer? && step.c == c {
      OwnAskKeepsLoopEnd(s, ids, step, replies);
    } else {
      OthersKeepOff(s, ids, c, step);
    }
  }

  /** The vote loop of `c` is open from step `i` to step `j`, and hears `replies`. */
  ghost predicate Listens(trace: seq<Cluster>, steps: seq<Step>, ids: seq<string>, c: nat, i: nat, j: nat,
                          replies: seq<Option<VoteReply>>)
    requires Run(trace, steps, ids) && i < j <= |steps| && |replies| == |ids|
  {
    && steps[i] == Start(c)
    && forall k :: i < k < j ==> steps[k] != Finish(c) && Hears(trace[k], ids, c, steps[k], replies)
  }

  lemma {:induction false} LoopEndsAsVoteLoop(trace: seq<Cluster>, steps: seq<Step>, ids: seq<string>, c: nat,
                                              i: nat, j: nat, replies: seq<Option<VoteReply>>)
    requires Run(trace, steps, ids) && i < j <= |steps| && c < |ids| == |replies|
    requires Listens(trace, steps, ids, c, i, j, replies)
    ensures Sized(trace[i], ids) && Sized(trace[j], ids) && trace[j].asking[c].Asking?
    ensures LoopEnd(trace[j], ids, c, replies) == VoteLoop(BeginElection(trace[i].nodes[c]), 1, 0, replies)
    decreases j
  {
    hide Do, LoopEnd, Hears, Inv;
    SizedAt(trace, steps, ids, i);
    SizedAt(trace, steps, ids, j - 1);
    SizedAt(trace, steps, ids, j);
    if j == i + 1 {
      StartsLoop(trace[i], ids, c, replies);
      StartsAsking(trace[i], ids, c);
    } else {
      LoopEndsAsVoteLoop(trace, steps, ids, c, i, j - 1, replies);
      StepKeepsLoopEnd(trace[j - 1], ids, c, steps[j - 1], replies);
    }
  }

  lemma SizedAt(trace: seq<Cluster>, steps: seq<Step>, ids: seq<string>, i: nat)
    requires Run(trace, steps, ids) && i < |trace|
    ensures Sized(trace[i], ids)
  {
    RunKeeps(trace, steps, ids, i, i);
  }

  lemma StartsAsking(s: Cluster, ids: seq<string>, c: nat)
    requires Sized(s, ids) && Enabled(s, ids, Start(c))
    ensures |Do(s, ids, Start(c)).asking| == |ids| && Do(s, ids, Start(c)).asking[c].Asking?
  {
  }

  /** An election spread over the steps of a run, with any steps of other members in between,
      leaves its node exactly where the source's locked region would: at Election of the replies
      it heard. */
  lemma ElectionIsOneRegion(trace: seq<Cluster>, steps: seq<Step>, ids: seq<string>, c: nat,
                            i: nat, j: nat, replies: seq<Option<VoteReply>>)
    requires Run(trace, steps, ids) && i < j < |steps| && c < |ids| == |replies|
    requires Listens(trace, steps, ids, c, i, j, replies) && steps[j] == Finish(c)
    ensures Sized(trace[i], ids) && Sized(trace[j + 1], ids)
    ensures |trace[i].nodes[c].members| == |replies|
    ensures trace[j + 1].nodes[c] == Election(trace[i].nodes[c], replies)
    ensures trace[j + 1].asking[c].Idle?
  {
    hide VoteLoop, CloseElection, BeginElection;
    LoopEndsAsVoteLoop(trace, steps, ids, c, i, j, replies);
    SizedAt(trace, steps, ids, j + 1);
    assert NodeSized(trace[i].nodes[c], ids, c);
    assert Enabled(trace[i], ids, steps[i]) && Enabled(trace[j], ids, steps[j]);
    assert !InLoop(trace[j], ids, c);
  }

  lemma AskedInOrder(s: Cluster, ids: seq<string>, c: nat, step: Step)
    requires Sized(s, ids) && Enabled(s, ids, step) && c < |ids| && s.asking[c].Asking? && step != Finish(c)
    ensures var s' := Do(s, ids, step);
            && c < |s'.asking| && s'.asking[c].Asking? && s.asking[c].at <= s'.asking[c].at
            && (step.AskPeer? && step.c == c ==> s.asking[c].at < s'.asking[c].at)
  {
    if step != PassSelf(c) && !(step.AskPeer? && step.c == c) {
      OthersKeepOff(s, ids, c, step);
    }
  }

  /** Every peer asked so far comes before the one to ask next. */
  ghost predicate AskedBelow(trace: seq<Cluster>, steps: seq<Step>, c: nat, i: nat, j: nat, at: nat)
    requires |trace| == |steps| + 1 && i < j <= |steps|
  {
    forall k :: i < k < j && steps[k].AskPeer? && steps[k].c == c ==>
      c < |trace[k].asking| && trace[k].asking[c].Asking? && trace[k].asking[c].at < at
  }

  lemma HearsOneMore(trace: seq<Cluster>, steps: seq<Step>, ids: seq<string>, c: nat, i: nat, j: nat,
                     replies: seq<Option<VoteReply>>, more: seq<Option<VoteReply>>)
    requires Run(trace, steps, ids) && i < j < |steps| && |replies| == |more| == |ids|
    requires Listens(trace, steps, ids, c, i, j, replies) && steps[j] != Finish(c)
    requires Sized(trace[j], ids) && Enabled(trace[j], ids, steps[j]) && Hears(trace[j], ids, c, steps[j], more)
    requires c < |ids| && trace[j].asking[c].Asking? && AskedBelow(trace, steps, c, i, j, trace[j].asking[c].at)
    requires forall m :: 0 <= m < trace[j].asking[c].at && m < |ids| ==> more[m] == replies[m]
    ensures Listens(trace, steps, ids, c, i, j + 1, more)
  {
    hide Do, Sized, Answer;
    forall k | i < k < j + 1
      ensures steps[k] != Finish(c) && Hears(trace[k], ids, c, steps[k], more)
    {
      assert k < j ==> Hears(trace[k], ids, c, steps[k], replies);
    }
  }

  /** There always are such replies: each peer is asked once. */
  lemma {:induction false} RepliesExist(trace: seq<Cluster>, steps: seq<Step>, ids: seq<string>, c: nat, i: nat, j: nat)
    returns (replies: seq<Option<VoteReply>>)
    requires Run(trace, steps, ids) && i < j <= |steps| && c < |ids| && steps[i] == Start(c)
    requires forall k :: i < k < j ==> steps[k] != Finish(c)
    ensures |replies| == |ids| && Listens(trace, steps, ids, c, i, j, replies)
    ensures Sized(trace[j], ids) && trace[j].asking[c].Asking?
    ensures AskedBelow(trace, steps, c, i, j, trace[j].asking[c].at)
    decreases j
  {
    hide Do, Inv, Answer, NodeSized, Listens;
    SizedAt(trace, steps, ids, j - 1);
    SizedAt(trace, steps, ids, j);
    if j == i + 1 {
      replies := seq(|ids|, _ => None);
      NothingHeard(trace, steps, ids, c, i, replies);
      StartsAsking(trace[i], ids, c);
    } else {
      var s, step := trace[j - 1], steps[j - 1];
      var before := RepliesExist(trace, steps, ids, c, i, j - 1);
      AskedInOrder(s, ids, c, step);
      replies := if step.AskPeer? && step.c == c then before[s.asking[c].at := Answer(s, ids, step)] else before;
      HearsOneMore(trace, steps, ids, c, i, j - 1, before, replies);
    }
  }

  lemma NothingHeard(trace: seq<Cluster>, steps: seq<Step>, ids: seq<string>, c: nat, i: nat,
                     replies: seq<Option<VoteReply>>)
    requires Run(trace, steps, ids) && i < |steps| && steps[i] == Start(c) && |replies| == |ids|
    ensures Listens(trace, steps, ids, c, i, i + 1, replies)
  {
  }

  // ---- one round of heartbeats, from its first to its last ------------------------------

  predicate OwnBeat(step: Step, l: nat) {
    step.Beat? && step.l == l
  }

  /** The member after the one that `l` last sent a heartbeat to, since step `i`. */
  function NextTarget(steps: seq<Step>, l: nat, i: nat, j: nat): nat
    requires i <= j <= |steps|
    decreases j
  {
    if j == i then 0
    else if OwnBeat(steps[j - 1], l) then steps[j - 1].i + 1
    else NextTarget(steps, l, i, j - 1)
  }

  /** Nobody but `l` itself from member `lo` up to `hi` was heard. */
  ghost predicate Unheard(replies: seq<Option<AppendReply>>, l: nat, lo: nat, hi: nat) {
    forall m :: lo <= m < hi && m < |replies| && m != l ==> replies[m].None?
  }

  /** What leader `l` will be at the end of its round, if it is at member `at` and hears these. */
  function RoundEnd(n: Node, at: nat, replies: seq<Option<AppendReply>>): Node
    requires Shaped(n) && |replies| == |n.members|
  {
    if n.role == Leader then BeatLoop(n, at, replies) else n
  }

  /** From step `i` to step `j` the heartbeats of `l` go up the list and hear `replies`, no other
      step changes `l`, whose mutex is held, and the round goes on to the end of the list unless
      `l` steps down. */
  ghost predicate Round(trace: seq<Cluster>, steps: seq<Step>, ids: seq<string>, l: nat, i: nat, j: nat,
                        replies: seq<Option<AppendReply>>)
    requires Run(trace, steps, ids) && i <= j <= |steps| && l < |ids| == |replies|
  {
    && (forall k :: i <= k < j ==> RoundStep(trace, steps, ids, l, i, k, replies))
    && (forall k :: i <= k <= j ==> |trace[k].nodes| == |ids|)
    && (trace[j].nodes[l].role == Leader ==> Unheard(replies, l, NextTarget(steps, l, i, j), |ids|))
  }

  ghost predicate RoundStep(trace: seq<Cluster>, steps: seq<Step>, ids: seq<string>, l: nat, i: nat, k: nat,
                            replies: seq<Option<AppendReply>>)
    requires Run(trace, steps, ids) && i <= k < |steps| && l < |ids| == |replies|
  {
    var step, at := steps[k], NextTarget(steps, l, i, k);
    if OwnBeat(step, l) then
      at <= step.i < |ids| && Unheard(replies, l, at, step.i)
      && replies[step.i] == if step.replied then Some(step.reply) else None
    else
      l < |trace[k].nodes| && l < |trace[k + 1].nodes| && trace[k + 1].nodes[l] == trace[k].nodes[l]
  }

  lemma {:induction false} UnheardSkips(n: Node, l: nat, lo: nat, hi: nat, replies: seq<Option<AppendReply>>)
    requires Shaped(n) && |replies| == |n.members| && l < |n.members| && n.members[l] == n.id
    requires lo <= hi <= |n.members| && Unheard(replies, l, lo, hi)
    ensures BeatLoop(n, lo, replies) == BeatLoop(n, hi, replies)
    decreases hi - lo
  {
    if lo < hi {
      UnheardSkips(n, l, lo + 1, hi, replies);
    }
  }

  lemma OwnBeatKeepsRoundEnd(s: Cluster, ids: seq<string>, step: Step, at: nat, replies: seq<Option<AppendReply>>)
    requires Sized(s, ids) && Enabled(s, ids, step) && step.Beat? && |replies| == |ids|
    requires at <= step.i && Unheard(replies, step.l, at, step.i)
    requires replies[step.i] == if step.replied then Some(step.reply) else None
    ensures var s' := Do(s, ids, step);
            Sized(s', ids) ==> RoundEnd(s'.nodes[step.l], step.i + 1, replies) == RoundEnd(s.nodes[step.l], at, replies)
  {
    hide HandleBeat, BeatRequest;
    var l, i := step.l, step.i;
    assert NodeSized(s.nodes[l], ids, l) && ids[i] != ids[l];
    UnheardSkips(s.nodes[l], l, at, i, replies);
  }

  /** A round of heartbeats spread over the steps of a run leaves its leader exactly where the
      source's locked region would: at Heartbeat of the replies it heard. */
  lemma HeartbeatIsOneRegion(trace: seq<Cluster>, steps: seq<Step>, ids: seq<string>, l: nat, i: nat, j: nat,
                             replies: seq<Option<AppendReply>>)
    requires Run(trace, steps, ids) && i <= j <= |steps| && l < |ids| == |replies|
    requires Round(trace, steps, ids, l, i, j, replies) && trace[i].nodes[l].role == Leader
    ensures Sized(trace[i], ids) && Sized(trace[j], ids)
    ensures Shaped(trace[i].nodes[l]) && |trace[i].nodes[l].members| == |replies|
    ensures trace[j].nodes[l] == Heartbeat(trace[i].nodes[l], replies)
  {
    hide Do, Inv, BeatLoop;
    SizedAt(trace, steps, ids, i);
    SizedAt(trace, steps, ids, j);
    assert NodeSized(trace[i].nodes[l], ids, l) && NodeSized(trace[j].nodes[l], ids, l);
    RoundGoesOn(trace, steps, ids, l, i, j, j, replies);
    if trace[j].nodes[l].role == Leader {
      UnheardSkips(trace[j].nodes[l], l, NextTarget(steps, l, i, j), |ids|, replies);
      LoopDone(trace[j].nodes[l], replies);
    }
  }

  lemma LoopDone(n: Node, replies: seq<Option<AppendReply>>)
    requires Shaped(n) && |replies| == |n.members|
    ensures BeatLoop(n, |n.members|, replies) == n
  {
  }

  lemma {:induction false} RoundGoesOn(trace: seq<Cluster>, steps: seq<Step>, ids: seq<string>, l: nat,
                                       i: nat, k: nat, j: nat, replies: seq<Option<AppendReply>>)
    requires Run(trace, steps, ids) && i <= k <= j <= |steps| && l < |ids| == |replies|
    requires Round(trace, steps, ids, l, i, j, replies)
    ensures Sized(trace[i], ids) && Sized(trace[k], ids) && NextTarget(steps, l, i, k) <= |ids|
    ensures RoundEnd(trace[k].nodes[l], NextTarget(steps, l, i, k), replies) == RoundEnd(trace[i].nodes[l], 0, replies)
    decreases k
  {
    hide Do, Inv, BeatLoop, RoundEnd, Enabled;
    SizedAt(trace, steps, ids, i);
    SizedAt(trace, steps, ids, k);
    if i < k {
      RoundGoesOn(trace, steps, ids, l, i, k - 1, j, replies);
      assert RoundStep(trace, steps, ids, l, i, k - 1, replies);
      if OwnBeat(steps[k - 1], l) {
        OwnBeatKeepsRoundEnd(trace[k - 1], ids, steps[k - 1], NextTarget(steps, l, i, k - 1), replies);
      }
    }
  }

  lemma OneLeaderPerTerm(s: Cluster, ids: seq<string>, term: nat, a: nat, b: nat)
    requires Inv(s, ids) && (term, a) in s.leaders && (term, b) in s.leaders
    ensures a == b
  {
    assert LeaderFits(s, ids, term, a) && LeaderFits(s, ids, term, b);
    MajoritiesMeet(Voters(s, term, a), Voters(s, term, b), |ids|);
    var j :| j in Voters(s, term, a) && j in Voters(s, term, b);
    assert VotedFor(s, j, term, a) && VotedFor(s, j, term, b);
  }

  /** Election safety: whatever calls fail or arrive late, no two members ever lead the same
      term, at the same moment or at any two moments of a run. */
  lemma ElectionSafety(trace: seq<Cluster>, steps: seq<Step>, ids: seq<string>, i: nat, j: nat, a: nat, b: nat)
    requires Run(trace, steps, ids) && i < |trace| && j < |trace|
    requires |trace[i].nodes| == |trace[j].nodes| == |ids| && a < |ids| && b < |ids|
    requires trace[i].nodes[a].role == Leader && trace[j].nodes[b].role == Leader
    requires trace[i].nodes[a].term == trace[j].nodes[b].term
    ensures a == b
  {
    var last := |trace| - 1;
    RunKeeps(trace, steps, ids, i, last);
    RunKeeps(trace, steps, ids, j, last);
    assert OwnerFits(trace[i], ids, a) && OwnerFits(trace[j], ids, b);
    OneLeaderPerTerm(trace[last], ids, trace[i].nodes[a].term, a, b);
  }

  /** Entries of one term sit in one member's log over a whole run, so an index and a term
      determine the entry: no two members ever hold different data for the same pair. */
  lemma EntriesAgree(trace: seq<Cluster>, steps: seq<Step>, ids: seq<string>,
                     i: nat, j: nat, a: nat, b: nat, k: nat, m: nat)
    requires Run(trace, steps, ids) && i < |trace| && j < |trace|
    requires |trace[i].nodes| == |trace[j].nodes| == |ids| && a < |ids| && b < |ids|
    requires k < |trace[i].nodes[a].log| && m < |trace[j].nodes[b].log|
    requires trace[i].nodes[a].log[k].term == trace[j].nodes[b].log[m].term
    ensures a == b
    ensures trace[i].nodes[a].log[k].index == trace[j].nodes[b].log[m].index ==>
              trace[i].nodes[a].log[k] == trace[j].nodes[b].log[m]
  {
    var last := |trace| - 1;
    RunKeeps(trace, steps, ids, i, last);
    RunKeeps(trace, steps, ids, j, last);
    assert OwnerFits(trace[i], ids, a) && OwnerFits(trace[j], ids, b);
    OneLeaderPerTerm(trace[last], ids, trace[i].nodes[a].log[k].term, a, b);
    assert trace[last].nodes[a].log[k] == trace[i].nodes[a].log[k];
    assert trace[last].nodes[a].log[m] == trace[j].nodes[a].log[m];
  }

  /** The election restriction: a leader was chosen by more than half of the members, and each
      of them voted with a log no newer than the one the leader stood with. */
  lemma LeadersLogIsNoOlder(trace: seq<Cluster>, steps: seq<Step>, ids: seq<string>, i: nat, c: nat)
    requires Run(trace, steps, ids) && i < |trace|
    requires |trace[i].nodes| == |trace[i].ballots| == |ids| && c < |ids| && trace[i].nodes[c].role == Leader
    ensures var s := trace[i]; var t := s.nodes[c].term;
            && |Voters(s, t, c)| > |ids| / 2
            && t in s.ballots[c]
            && forall j :: j in Voters(s, t, c) ==> NoNewer(s.ballots[j][t], s.ballots[c][t])
  {
    RunKeeps(trace, steps, ids, i, i);
    var s := trace[i];
    var t := s.nodes[c].term;
    assert OwnerFits(s, ids, c) && LeaderFits(s, ids, t, c);
    forall j | j in Voters(s, t, c)
      ensures t in s.ballots[c] && NoNewer(s.ballots[j][t], s.ballots[c][t])
    {
      assert BallotFits(s, ids, j, t);
    }
    var j :| j in Voters(s, t, c);
  }
}
