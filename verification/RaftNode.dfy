/** One Raft node (src/distributed/raft.c): what each locked region of the source does to
    the node, as functions on node values, and what they keep over every run of a node. */
module RaftNode {
  import opened Base

  const MAX_NODES := 64
  const INITIAL_LOG_CAPACITY := 1024

  datatype Role = Unknown | Leader | Follower | Candidate | Down

  datatype Entry = Entry(term: nat, index: nat, data: seq<byte>)

  datatype VoteRequest = VoteRequest(term: nat, candidate: string, lastIndex: nat, lastTerm: nat)
  datatype VoteReply = VoteReply(term: nat, granted: bool)
  datatype AppendRequest = AppendRequest(term: nat, leader: string, prevIndex: nat, prevTerm: nat)
  datatype AppendReply = AppendReply(term: nat, success: bool)

  /** The fields of struct xdevice_raft_node that the protocol uses. An empty `votedFor` is
      "no vote"; `next` and `matched` are the parts of the arrays below cluster_size. */
  datatype Node = Node(
    id: string,
    members: seq<string>,
    role: Role,
    term: nat,
    votedFor: string,
    log: seq<Entry>,
    next: seq<nat>,
    matched: seq<nat>)

  function LastTerm(log: seq<Entry>): nat {
    if log == [] then 0 else log[|log| - 1].term
  }

  function TermAt(log: seq<Entry>, index: nat): nat
    requires index <= |log|
  {
    if index == 0 then 0 else log[index - 1].term
  }

  function StepDown(n: Node, term: nat): Node {
    n.(term := term, role := Follower, votedFor := "")
  }

  // ---- the candidate's side ---------------------------------------------------------

  function BeginElection(n: Node): Node {
    n.(role := Candidate, term := n.term + 1, votedFor := n.id)
  }

  function BallotRequest(n: Node): VoteRequest {
    VoteRequest(n.term, n.id, |n.log|, LastTerm(n.log))
  }

  /** A vote is counted before the reply's term is looked at. */
  function CountVote(n: Node, votes: nat, reply: VoteReply): (Node, nat) {
    (if reply.term > n.term then StepDown(n, reply.term) else n,
     if reply.granted then votes + 1 else votes)
  }

  function CloseElection(n: Node, votes: nat): Node {
    if n.role == Candidate && votes > |n.members| / 2 then
      n.(role := Leader,
         next := seq(|n.members|, _ => |n.log| + 1),
         matched := seq(|n.members|, _ => 0))
    else n
  }

  /** The vote loop from member `i` on; `replies[i]` is None when the call to member `i` failed. */
  function VoteLoop(n: Node, votes: nat, i: nat, replies: seq<Option<VoteReply>>): (Node, nat)
    requires |replies| == |n.members|
    decreases |n.members| - i
  {
    if i >= |n.members| then (n, votes)
    else if n.members[i] == n.id || replies[i].None? then VoteLoop(n, votes, i + 1, replies)
    else
      var (n', votes') := CountVote(n, votes, replies[i].value);
      if replies[i].value.term > n.term then (n', votes')
      else VoteLoop(n', votes', i + 1, replies)
  }

  function Election(n: Node, replies: seq<Option<VoteReply>>): Node
    requires |replies| == |n.members|
  {
    if n.role == Leader then n
    else
      var (n', votes) := VoteLoop(BeginElection(n), 1, 0, replies);
      CloseElection(n', votes)
  }

  // ---- the leader's side ------------------------------------------------------------

  ghost predicate Shaped(n: Node) {
    |n.next| == |n.matched| == |n.members|
  }

  /** 1 <= next[i] <= |log| + 1 and matched[i] <= |log|, for every member, while leading. */
  ghost predicate LeaderIndexesFit(n: Node) {
    && Shaped(n)
    && (n.role == Leader ==>
          forall i :: 0 <= i < |n.members| ==> 1 <= n.next[i] <= |n.log| + 1 && n.matched[i] <= |n.log|)
  }

  function BeatRequest(n: Node, i: nat): AppendRequest
    requires n.role == Leader && LeaderIndexesFit(n) && i < |n.members|
  {
    AppendRequest(n.term, n.id, n.next[i] - 1, TermAt(n.log, n.next[i] - 1))
  }

  /** next - 1; `next` is never 0 while leading. */
  function Before(next: nat): nat {
    if next == 0 then 0 else next - 1
  }

  function TakeBeatReply(n: Node, i: nat, reply: AppendReply): Node
    requires Shaped(n) && i < |n.members|
  {
    if reply.term > n.term then StepDown(n, reply.term)
    else if reply.success then
      n.(matched := n.matched[i := Before(n.next[i])], next := n.next[i := Before(n.next[i]) + 1])
    else if n.next[i] > 1 then n.(next := n.next[i := n.next[i] - 1])
    else n
  }

  function BeatLoop(n: Node, i: nat, replies: seq<Option<AppendReply>>): Node
    requires Shaped(n) && |replies| == |n.members|
    decreases |n.members| - i
  {
    if i >= |n.members| then n
    else if n.members[i] == n.id || replies[i].None? then BeatLoop(n, i + 1, replies)
    else if replies[i].value.term > n.term then TakeBeatReply(n, i, replies[i].value)
    else BeatLoop(TakeBeatReply(n, i, replies[i].value), i + 1, replies)
  }

  function Heartbeat(n: Node, replies: seq<Option<AppendReply>>): Node
    requires Shaped(n) && |replies| == |n.members|
  {
    if n.role == Leader then BeatLoop(n, 0, replies) else n
  }

  /** `memory` is false when one of the two allocations fails. */
  function AppendLog(n: Node, data: seq<byte>, memory: bool): (Node, Status) {
    if data == [] then (n, InvalidParam)
    else if n.role != Leader then (n, Permission)
    else if !memory then (n, OutOfMemory)
    else (n.(log := n.log + [Entry(n.term, |n.log| + 1, data)]), Ok)
  }

  // ---- the receiver's side ----------------------------------------------------------

  /** Section 5.4.1 of the Raft paper, as the design writes it. */
  predicate IsLogUpToDate(log: seq<Entry>, lastIndex: nat, lastTerm: nat) {
    lastTerm > LastTerm(log) || (lastTerm == LastTerm(log) && lastIndex >= |log|)
  }

  predicate CheckLogConsistency(log: seq<Entry>, prevIndex: nat, prevTerm: nat) {
    prevIndex <= |log| && (prevIndex > 0 ==> log[prevIndex - 1].term == prevTerm)
  }

  function HandleVote(n: Node, req: VoteRequest): (Node, VoteReply) {
    var n1 := if req.term > n.term then StepDown(n, req.term) else n;
    var grant := req.term == n1.term && (n1.votedFor == "" || n1.votedFor == req.candidate)
                 && IsLogUpToDate(n1.log, req.lastIndex, req.lastTerm);
    var n2 := if grant then n1.(votedFor := req.candidate) else n1;
    (n2, VoteReply(n2.term, grant))
  }

  /** Receipt of a heartbeat: the term is adopted but the vote is left alone. */
  function HandleBeat(n: Node, req: AppendRequest): Node {
    if req.term >= n.term then n.(term := req.term, role := Follower) else n
  }

  // ---- one node over every run --------------------------------------------------------

  ghost predicate LogWellFormed(log: seq<Entry>, term: nat) {
    && (forall k :: 0 <= k < |log| ==> log[k].index == k + 1 && log[k].term <= term)
    && (forall k, m :: 0 <= k < m < |log| ==> log[k].term <= log[m].term)
  }

  ghost predicate NodeInv(n: Node) {
    LeaderIndexesFit(n) && LogWellFormed(n.log, n.term)
  }

  /** What any locked region may do to the parts of a node that must never go back. */
  ghost predicate Advances(n: Node, n': Node) {
    && n'.id == n.id && n'.members == n.members
    && n.term <= n'.term
    && n.log <= n'.log
    && (forall k :: |n.log| <= k < |n'.log| ==> n'.log[k].term == n.term && n.role == Leader)
  }

  datatype Event =
    | TimesOut(votes: seq<Option<VoteReply>>)
    | Beats(replies: seq<Option<AppendReply>>)
    | Appends(data: seq<byte>, memory: bool)
    | AskedForVote(ballot: VoteRequest)
    | Beaten(beat: AppendRequest)

  ghost predicate EventFits(n: Node, e: Event) {
    && (e.TimesOut? ==> |e.votes| == |n.members|)
    && (e.Beats? ==> |e.replies| == |n.members|)
  }

  ghost function Happens(n: Node, e: Event): Node
    requires Shaped(n) && EventFits(n, e)
  {
    match e
    case TimesOut(votes) => Election(n, votes)
    case Beats(replies) => Heartbeat(n, replies)
    case Appends(data, memory) => AppendLog(n, data, memory).0
    case AskedForVote(ballot) => HandleVote(n, ballot).0
    case Beaten(beat) => HandleBeat(n, beat)
  }

  lemma {:induction false} VoteLoopKeeps(n: Node, votes: nat, i: nat, replies: seq<Option<VoteReply>>)
    requires |replies| == |n.members| && n.role == Candidate
    requires Shaped(n) && LogWellFormed(n.log, n.term)
    ensures var m := VoteLoop(n, votes, i, replies).0;
            && Shaped(m) && LogWellFormed(m.log, m.term) && m.role != Leader
            && m.id == n.id && m.members == n.members && m.log == n.log && m.term >= n.term
    decreases |n.members| - i
  {
    if i < |n.members| {
      if n.members[i] == n.id || replies[i].None? {
        VoteLoopKeeps(n, votes, i + 1, replies);
      } else if replies[i].value.term <= n.term {
        VoteLoopKeeps(n, CountVote(n, votes, replies[i].value).1, i + 1, replies);
      }
    }
  }

  lemma {:induction false} BeatLoopKeeps(n: Node, i: nat, replies: seq<Option<AppendReply>>)
    requires |replies| == |n.members| && NodeInv(n)
    ensures NodeInv(BeatLoop(n, i, replies)) && Advances(n, BeatLoop(n, i, replies))
    ensures BeatLoop(n, i, replies).log == n.log
    decreases |n.members| - i
  {
    if i < |n.members| {
      if n.members[i] == n.id || replies[i].None? {
        BeatLoopKeeps(n, i + 1, replies);
      } else if replies[i].value.term <= n.term {
        BeatLoopKeeps(TakeBeatReply(n, i, replies[i].value), i + 1, replies);
      }
    }
  }

  lemma ElectionKeeps(n: Node, replies: seq<Option<VoteReply>>)
    requires NodeInv(n) && |replies| == |n.members|
    ensures NodeInv(Election(n, replies)) && Advances(n, Election(n, replies))
  {
    hide VoteLoop, LogWellFormed;
    if n.role != Leader {
      var begun := BeginElection(n);
      assert LogWellFormed(begun.log, begun.term) by { WellFormedLater(n.log, n.term, begun.term); }
      VoteLoopKeeps(begun, 1, 0, replies);
    }
  }

  lemma WellFormedLater(log: seq<Entry>, term: nat, later: nat)
    requires LogWellFormed(log, term) && term <= later
    ensures LogWellFormed(log, later)
  {
  }

  lemma AppendKeeps(n: Node, data: seq<byte>, memory: bool)
    requires NodeInv(n)
    ensures NodeInv(AppendLog(n, data, memory).0) && Advances(n, AppendLog(n, data, memory).0)
    ensures var (n', status) := AppendLog(n, data, memory);
            && n' == n.(log := n'.log)
            && (status == Ok ==> n.role == Leader && n'.log == n.log + [Entry(n.term, |n.log| + 1, data)])
            && (status != Ok ==> n'.log == n.log)
  {
  }

  lemma ReceiverKeeps(n: Node, ballot: VoteRequest, beat: AppendRequest)
    requires NodeInv(n)
    ensures NodeInv(HandleVote(n, ballot).0) && Advances(n, HandleVote(n, ballot).0)
    ensures NodeInv(HandleBeat(n, beat)) && Advances(n, HandleBeat(n, beat))
  {
    hide IsLogUpToDate, LogWellFormed;
    WellFormedLater(n.log, n.term, HandleVote(n, ballot).0.term);
    WellFormedLater(n.log, n.term, HandleBeat(n, beat).term);
  }

  /** Every locked region keeps the log and leader-index invariants, whatever the replies say. */
  lemma HappensKeeps(n: Node, e: Event)
    requires NodeInv(n) && EventFits(n, e)
    ensures NodeInv(Happens(n, e)) && Advances(n, Happens(n, e))
  {
    hide NodeInv, Advances;
    match e {
      case TimesOut(votes) => ElectionKeeps(n, votes);
      case Beats(replies) =>
        if n.role == Leader {
          BeatLoopKeeps(n, 0, replies);
        } else {
          StandsStill(n);
        }
      case Appends(data, memory) => AppendKeeps(n, data, memory);
      case AskedForVote(ballot) => ReceiverKeeps(n, ballot, AppendRequest(0, "", 0, 0));
      case Beaten(beat) => ReceiverKeeps(n, VoteRequest(0, "", 0, 0), beat);
    }
  }

  /** A vote left standing when a heartbeat raised the term can only refuse a request: a vote is
      granted if and only if it would be with no vote standing, and in addition the request's
      term is newer or the standing vote is for the same candidate. */
  lemma StaleVoteOnlyRefuses(n: Node, req: VoteRequest)
    ensures var (with, without) := (HandleVote(n, req), HandleVote(n.(votedFor := ""), req));
            && (with.1.granted <==> without.1.granted
                                    && (req.term > n.term || n.votedFor == "" || n.votedFor == req.candidate))
            && (with.1.granted ==> with == without)
  {
  }

  lemma StandsStill(n: Node)
    ensures Advances(n, n)
  {
  }

  ghost predicate NodeRun(trace: seq<Node>, events: seq<Event>) {
    && |trace| == |events| + 1
    && NodeInv(trace[0])
    && forall i :: 0 <= i < |events| ==>
         Shaped(trace[i]) && EventFits(trace[i], events[i]) && trace[i + 1] == Happens(trace[i], events[i])
  }

  /** Along every run: the invariants hold at each point, the term never falls, and each log
      is a prefix of every later log. */
  lemma {:induction false} NodeRunKeeps(trace: seq<Node>, events: seq<Event>, i: nat, j: nat)
    requires NodeRun(trace, events) && i <= j < |trace|
    ensures NodeInv(trace[i]) && NodeInv(trace[j])
    ensures trace[i].term <= trace[j].term && trace[i].log <= trace[j].log
    decreases j
  {
    if j > 0 {
      if i < j {
        NodeRunKeeps(trace, events, i, j - 1);
      } else {
        NodeRunKeeps(trace, events, j - 1, j - 1);
      }
      HappensKeeps(trace[j - 1], events[j - 1]);
    }
  }

  function Created(id: string, members: seq<string>): Node {
    Node(id, members, Follower, 0, "", [], seq(|members|, _ => 0), seq(|members|, _ => 0))
  }
}
