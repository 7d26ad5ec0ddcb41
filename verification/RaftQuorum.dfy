/** What the majority test of src/distributed/raft.c:127-128 needs of the member lists: its counts
    start from a node's own vote, so the lists must hold the node itself. */
module RaftQuorum {
  import opened Base
  import opened RaftNode

  /** Among `n` nodes whose lists have `k` entries, two vote counts that both win share a voter. */
  ghost predicate WinnersShareVoter(n: nat, k: nat) {
    forall a, b :: Winning(a, n, k) && Winning(b, n, k) ==> a * b != {}
  }

  ghost predicate Winning(voters: set<nat>, n: nat, k: nat) {
    |voters| > k / 2 && forall v :: v in voters ==> v < n
  }

  ghost function Span(lo: nat, size: nat): set<nat> {
    if size == 0 then {} else Span(lo, size - 1) + {lo + size - 1}
  }

  lemma {:induction false} SpanHolds(lo: nat, size: nat)
    ensures |Span(lo, size)| == size && forall v :: v in Span(lo, size) <==> lo <= v < lo + size
    decreases size
  {
    if size > 0 {
      SpanHolds(lo, size - 1);
    }
  }

  /** Two winning counts must share a voter if and only if twice the least winning count is more
      than the number of nodes. */
  lemma WinnersShareExactly(n: nat, k: nat)
    ensures WinnersShareVoter(n, k) <==> 2 * (k / 2 + 1) > n
  {
    var least := k / 2 + 1;
    if 2 * least > n {
      forall a, b | Winning(a, n, k) && Winning(b, n, k)
        ensures a * b != {}
      {
        BoundedSize(a + b, n);
        assert |a + b| == |a| + |b| - |a * b|;
      }
    } else {
      var a, b := Span(0, least), Span(least, least);
      SpanHolds(0, least);
      SpanHolds(least, least);
      assert Winning(a, n, k) && Winning(b, n, k) && a * b == {};
    }
  }

  /** Lists of all nodes, the node itself included, are always long enough; lists that leave it
      out are long enough exactly when the number of nodes is odd. */
  lemma OwnEntryCounts(n: nat)
    requires n > 0
    ensures WinnersShareVoter(n, n)
    ensures WinnersShareVoter(n, n - 1) <==> n % 2 == 1
  {
    WinnersShareExactly(n, n);
    WinnersShareExactly(n, n - 1);
  }

  /** Two nodes that list only each other both win term 1 though every call fails. */
  lemma TwoLeadersOfOneTerm()
    ensures var a, b := Election(Created("a", ["b"]), [None]), Election(Created("b", ["a"]), [None]);
            a.role == Leader && b.role == Leader && a.term == b.term == 1 && a.id != b.id
  {
  }
}
