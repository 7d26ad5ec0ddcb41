/** The node of src/distributed/raft.c as an object: fields and arrays changed in place,
    each method one region the source runs under the node's mutex. */
module RaftServer {
  import opened Base
  import opened RaftNode

  ghost function Pow2(k: nat): (p: nat)
    ensures p >= 1
  {
    if k == 0 then 1 else 2 * Pow2(k - 1)
  }

  ghost predicate Doubled(capacity: nat) {
    exists k: nat :: capacity == INITIAL_LOG_CAPACITY * Pow2(k)
  }

  const MAX_NODE_ID_LEN := 64

  /** strncpy into a 64-byte field that was cleared. */
  function StoredId(nodeId: string): (id: string)
    ensures id <= nodeId && |id| == if |nodeId| < 64 then |nodeId| else 63
  {
    if |nodeId| < MAX_NODE_ID_LEN then nodeId else nodeId[..MAX_NODE_ID_LEN - 1]
  }

  class Server {
    const id: string
    var role: Role
    var currentTerm: nat
    var votedFor: string
    var logEntries: array<Entry>
    var logSize: nat
    const nextIndex: array<nat>
    const matchIndex: array<nat>
    const clusterNodes: array<string>
    var clusterSize: nat

    /** The arrays have their sizes and the counts are within them. */
    ghost predicate Laid()
      reads this, logEntries, nextIndex, matchIndex, clusterNodes
    {
      && nextIndex.Length == matchIndex.Length == clusterNodes.Length == MAX_NODES
      && nextIndex != matchIndex
      && clusterSize <= MAX_NODES
      && logSize <= logEntries.Length
      && Doubled(logEntries.Length)
    }

    ghost predicate Valid()
      reads this, logEntries, nextIndex, matchIndex, clusterNodes
    {
      Laid() && NodeInv(View())
    }

    ghost function View(): Node
      reads this, logEntries, nextIndex, matchIndex, clusterNodes
      requires Laid()
    {
      Node(id, clusterNodes[..clusterSize], role, currentTerm, votedFor, logEntries[..logSize],
           nextIndex[..clusterSize], matchIndex[..clusterSize])
    }

    /** The id is cut to the 63 characters that its field has room for. */
    constructor (nodeId: string)
      ensures Valid() && View() == Created(StoredId(nodeId), []) && logEntries.Length == INITIAL_LOG_CAPACITY == 1024
      ensures role == Follower && currentTerm == 0 && votedFor == "" && logSize == 0 && clusterSize == 0
      ensures fresh(logEntries) && fresh(nextIndex) && fresh(matchIndex) && fresh(clusterNodes)
    {
      this.id := StoredId(nodeId);
      role, currentTerm, votedFor := Follower, 0, "";
      logEntries := new Entry[INITIAL_LOG_CAPACITY](_ => Entry(0, 0, []));
      logSize := 0;
      nextIndex := new nat[MAX_NODES](_ => 0);
      matchIndex := new nat[MAX_NODES](_ => 0);
      clusterNodes := new string[MAX_NODES](_ => "");
      clusterSize := 0;
      new;
      assert INITIAL_LOG_CAPACITY == INITIAL_LOG_CAPACITY * Pow2(0);
    }

    /** The new member's leader indexes are whatever the arrays hold in its place: on a node that
        leads they may be out of bounds. */
    method AddNode(node: string) returns (status: Status)
      requires Valid()
      modifies this`clusterSize, clusterNodes
      ensures Laid()
      ensures status == if old(clusterSize) < MAX_NODES then Ok else InvalidParam
      ensures var at := old(clusterSize);
              Valid() <==> status != Ok || role != Leader
                           || (1 <= nextIndex[at] <= logSize + 1 && matchIndex[at] <= logSize)
      ensures View() == old(View()).(members := View().members, next := View().next, matched := View().matched)
      ensures if status == Ok
              then View().members == old(View()).members + [node]
                   && View().next == old(View()).next + [nextIndex[old(clusterSize)]]
                   && View().matched == old(View()).matched + [matchIndex[old(clusterSize)]]
              else View() == old(View())
    {
      if clusterSize >= MAX_NODES {
        return InvalidParam;
      }
      ghost var was := View();
      clusterNodes[clusterSize] := node;
      clusterSize := clusterSize + 1;
      assert View().next == was.next + [nextIndex[clusterSize - 1]];
      assert View().matched == was.matched + [matchIndex[clusterSize - 1]];
      assert View().next[clusterSize - 1] == nextIndex[clusterSize - 1];
      assert forall i :: 0 <= i < clusterSize - 1 ==>
          View().next[i] == was.next[i] && View().matched[i] == was.matched[i];
      return Ok;
    }

    method Election(timedOut: bool, replies: seq<Option<VoteReply>>)
      requires Valid() && |replies| == clusterSize
      modifies this`role, this`currentTerm, this`votedFor, nextIndex, matchIndex
      ensures Valid()
      ensures View() == if timedOut then RaftNode.Election(old(View()), replies) else old(View())
    {
      if role != Leader && timedOut {
        ghost var start := BeginElection(View());
        role := Candidate;
        currentTerm := currentTerm + 1;
        votedFor := id;
        var votes := CollectVotes(replies);
        if role == Candidate && votes > clusterSize / 2 {
          BecomeLeader(votes);
        }
      }
    }

    method BecomeLeader(ghost votes: nat)
      requires Valid() && role == Candidate && votes > clusterSize / 2
      modifies this`role, nextIndex, matchIndex
      ensures Valid() && View() == CloseElection(old(View()), votes)
    {
      ghost var was := View();
      role := Leader;
      var i := 0;
      while i < clusterSize
        modifies nextIndex, matchIndex
        invariant 0 <= i <= clusterSize
        invariant forall k :: 0 <= k < i ==> nextIndex[k] == logSize + 1 && matchIndex[k] == 0
      {
        nextIndex[i] := logSize + 1;
        matchIndex[i] := 0;
        i := i + 1;
      }
      assert View() == CloseElection(was, votes);
    }

    method CollectVotes(replies: seq<Option<VoteReply>>) returns (votes: nat)
      requires Valid() && |replies| == clusterSize && role == Candidate
      modifies this`role, this`currentTerm, this`votedFor
      ensures Valid() && role != Leader
      ensures (View(), votes) == VoteLoop(old(View()), 1, 0, replies)
    {
      votes := 1;
      var i := 0;
      while i < clusterSize
        invariant 0 <= i <= clusterSize && Valid() && role == Candidate
        invariant View() == old(View())
        invariant VoteLoop(View(), votes, i, replies) == VoteLoop(old(View()), 1, 0, replies)
      {
        if clusterNodes[i] != id && replies[i].Some? {
          var reply := replies[i].value;
          if reply.granted {
            votes := votes + 1;
          }
          if reply.term > currentTerm {
            currentTerm := reply.term;
            role := Follower;
            votedFor := "";
            return;
          }
        }
        i := i + 1;
      }
    }

    method Heartbeat(due: bool, replies: seq<Option<AppendReply>>)
      requires Valid() && |replies| == clusterSize
      modifies this`role, this`currentTerm, this`votedFor, nextIndex, matchIndex
      ensures Valid()
      ensures View() == if due then RaftNode.Heartbeat(old(View()), replies) else old(View())
    {
      if role == Leader && due {
        var i := 0;
        while i < clusterSize
          invariant 0 <= i <= clusterSize && Valid() && role == Leader
          invariant View().members == old(View()).members
          invariant BeatLoop(View(), i, replies) == BeatLoop(old(View()), 0, replies)
        {
          if clusterNodes[i] != id {
            var request := RequestFor(i);
            if replies[i].Some? {
              var stop := TakeReply(i, request, replies[i].value);
              if stop {
                return;
              }
            }
          }
          i := i + 1;
        }
      }
    }

    /** The previous-entry lookup stays inside the log. */
    method RequestFor(i: nat) returns (request: AppendRequest)
      requires Valid() && role == Leader && i < clusterSize
      ensures request == BeatRequest(View(), i)
    {
      ghost var n := View();
      assert 1 <= n.next[i] <= |n.log| + 1;
      var prev := nextIndex[i] - 1;
      request := AppendRequest(currentTerm, id, prev, if prev > 0 then logEntries[prev - 1].term else 0);
    }

    method TakeReply(i: nat, request: AppendRequest, reply: AppendReply) returns (stop: bool)
      requires Valid() && role == Leader && i < clusterSize && request == BeatRequest(View(), i)
      modifies this`role, this`currentTerm, this`votedFor, nextIndex, matchIndex
      ensures Valid() && View() == TakeBeatReply(old(View()), i, reply)
      ensures stop == (reply.term > old(currentTerm))
    {
      ghost var n := View();
      assert n.next[i] == nextIndex[i] >= 1;
      if reply.term > currentTerm {
        currentTerm := reply.term;
        role := Follower;
        votedFor := "";
        return true;
      }
      if reply.success {
        matchIndex[i] := request.prevIndex;
        nextIndex[i] := matchIndex[i] + 1;
      } else if nextIndex[i] > 1 {
        nextIndex[i] := nextIndex[i] - 1;
      }
      assert View() == TakeBeatReply(n, i, reply);
      return false;
    }

    /** `reallocOk` and `mallocOk` say whether the two allocations succeed. */
    method AppendLog(data: seq<byte>, reallocOk: bool, mallocOk: bool) returns (status: Status)
      requires Valid()
      modifies this`logEntries, this`logSize, logEntries
      ensures Valid() && (logEntries == old(logEntries) || fresh(logEntries))
      ensures (View(), status) == RaftNode.AppendLog(
                old(View()), data, mallocOk && (reallocOk || old(logSize < logEntries.Length)))
      ensures old(logEntries.Length) <= logEntries.Length
    {
      if |data| == 0 {
        return InvalidParam;
      }
      if role != Leader {
        return Permission;
      }
      if logSize >= logEntries.Length {
        if !reallocOk {
          return OutOfMemory;
        }
        Grow();
      }
      status := Store(data, mallocOk);
    }

    method Store(data: seq<byte>, mallocOk: bool) returns (status: Status)
      requires Valid() && role == Leader && logSize < logEntries.Length && data != []
      modifies this`logSize, logEntries
      ensures Valid() && (View(), status) == RaftNode.AppendLog(old(View()), data, mallocOk)
    {
      hide NodeInv;
      ghost var was := View();
      AppendKeeps(was, data, mallocOk);
      logEntries[logSize] := logEntries[logSize].(term := currentTerm, index := logSize + 1);
      assert View() == was;
      if !mallocOk {
        return OutOfMemory;
      }
      logEntries[logSize] := logEntries[logSize].(data := data);
      logSize := logSize + 1;
      assert View().log == was.log + [Entry(currentTerm, |was.log| + 1, data)];
      return Ok;
    }

    method Grow()
      requires Valid()
      modifies this`logEntries
      ensures Valid() && fresh(logEntries) && logEntries.Length == 2 * old(logEntries.Length)
      ensures View() == old(View())
    {
      ghost var k: nat :| logEntries.Length == INITIAL_LOG_CAPACITY * Pow2(k);
      assert 2 * logEntries.Length == INITIAL_LOG_CAPACITY * Pow2(k + 1);
      var entries := logEntries;
      var grown := new Entry[2 * entries.Length](_ => Entry(0, 0, []));
      var i := 0;
      while i < logSize
        modifies grown
        invariant 0 <= i <= logSize
        invariant grown[..i] == entries[..i]
      {
        grown[i] := entries[i];
        i := i + 1;
      }
      logEntries := grown;
    }

    method HandleVoteRequest(request: VoteRequest) returns (reply: VoteReply)
      requires Valid()
      modifies this`role, this`currentTerm, this`votedFor
      ensures Valid()
      ensures (View(), reply) == HandleVote(old(View()), request)
    {
      var granted := false;
      if request.term > currentTerm {
        currentTerm := request.term;
        votedFor := "";
        role := Follower;
      }
      if request.term == currentTerm && (votedFor == "" || votedFor == request.candidate) {
        var ourTerm := if logSize == 0 then 0 else logEntries[logSize - 1].term;
        if request.lastTerm > ourTerm || (request.lastTerm == ourTerm && request.lastIndex >= logSize) {
          granted := true;
          votedFor := request.candidate;
        }
      }
      reply := VoteReply(currentTerm, granted);
    }

    method HandleHeartbeat(request: AppendRequest)
      requires Valid()
      modifies this`role, this`currentTerm
      ensures Valid() && View() == HandleBeat(old(View()), request)
    {
      if request.term >= currentTerm {
        currentTerm := request.term;
        role := Follower;
      }
    }
  }
}
