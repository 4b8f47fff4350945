/**
 * One round of a ranked-choice election (RankedChoiceRound.cs): an immutable
 * value holding the round number, the round's tallies and the total fixed when
 * the round is started, together with what is derived from them: the
 * eliminated candidate, the candidates moving on, and the majority winner.
 */
module RankedChoiceRound {
  import opened Wrappers
  import opened Interfaces
  import opened Linq

  /** C#'s `n / 2` on int, which truncates toward zero. */
  function HalfTowardZero(n: int): (h: int)
    ensures n >= 0 ==> 0 <= n - 2 * h <= 1
    ensures n < 0 ==> -1 <= n - 2 * h <= 0
  {
    if n >= 0 then n / 2 else -((-n) / 2)
  }

  /** `votes > totalVotes / 2`: a strict majority of the round's total. */
  predicate HasMajorityVote(totalVotes: int, votes: int)
    ensures totalVotes >= 0 ==> (HasMajorityVote(totalVotes, votes) <==> 2 * votes > totalVotes)
    ensures totalVotes < 0 ==> (HasMajorityVote(totalVotes, votes) <==> 2 * votes > totalVotes + totalVotes % 2)
  {
    votes > HalfTowardZero(totalVotes)
  }

  /** The count of the first tally for `c`, or 0 when no tally names `c`. */
  function VotesOf<C(==)>(t: seq<Tally<C>>, c: C): int
  {
    if t == [] then 0 else if t[0].candidate == c then t[0].votes else VotesOf(t[1..], c)
  }

  lemma {:induction false} VotesOfMember<C>(t: seq<Tally<C>>, x: Tally<C>)
    requires DistinctCandidates(t) && x in t
    ensures VotesOf(t, x.candidate) == x.votes
  {
    if t[0] != x {
      assert x in t[1..];
      VotesOfMember(t[1..], x);
    }
  }

  /** The index of the first tally that passes the majority test, or |t| when none does. */
  function FirstWithMajority<C>(t: seq<Tally<C>>, totalVotes: int): (i: nat)
    ensures i <= |t|
    ensures i < |t| ==> HasMajorityVote(totalVotes, t[i].votes)
    ensures forall j :: 0 <= j < i ==> !HasMajorityVote(totalVotes, t[j].votes)
  {
    if t == [] then 0
    else if HasMajorityVote(totalVotes, t[0].votes) then 0
    else 1 + FirstWithMajority(t[1..], totalVotes)
  }

  datatype Round<C(==)> = Round(roundNumber: int, talliedVotes: seq<Tally<C>>, totalVotes: int)
  {
    /** The total fixed at construction is the sum of the tallies. */
    predicate WellFormed()
    {
      totalVotes == SumVotes(talliedVotes)
    }

    /**
     * The candidate of the first entry of the tallies sorted by ascending count
     * (OrderBy(...).First()): the earliest entry with the fewest votes. There is
     * none when the round has no tallies, where First() throws.
     */
    function EliminatedCandidate(): (e: Option<C>)
      ensures e.None? <==> |talliedVotes| == 0
      ensures e.Some? ==> e.value in Candidates(talliedVotes)
      ensures e.Some? ==>
        exists i :: 0 <= i < |talliedVotes| && talliedVotes[i].candidate == e.value
          && (forall j :: 0 <= j < |talliedVotes| ==> talliedVotes[i].votes <= talliedVotes[j].votes)
          && (forall j :: 0 <= j < i ==> talliedVotes[j].votes > talliedVotes[i].votes)
    {
      if talliedVotes == [] then None
      else
        SortByVotesHead(talliedVotes, Ascending);
        var i := FirstExtreme(talliedVotes, Ascending);
        assert talliedVotes[i].candidate == OrderByVotes(talliedVotes)[0].candidate;
        assert Candidates(talliedVotes)[i] == talliedVotes[i].candidate;
        Some(OrderByVotes(talliedVotes)[0].candidate)
    }

    /**
     * The candidates of the tallies in descending count order, without the
     * eliminated candidate (OrderByDescending, Select, Except). As in the source,
     * evaluating it needs the eliminated candidate, so it fails on empty tallies.
     */
    function RemainingCandidates(): (rc: Option<seq<C>>)
      ensures rc.None? <==> |talliedVotes| == 0
      ensures rc.Some? ==> forall c :: c in rc.value ==> c in Candidates(talliedVotes) && c != EliminatedCandidate().value
      ensures rc.Some? ==> forall k :: 0 <= k < |talliedVotes| && talliedVotes[k].candidate != EliminatedCandidate().value ==>
        talliedVotes[k].candidate in rc.value
      ensures rc.Some? ==> Distinct(rc.value)
      ensures rc.Some? && DistinctCandidates(talliedVotes) ==> |rc.value| == |talliedVotes| - 1
      ensures rc.Some? && DistinctCandidates(talliedVotes) ==>
        forall i, j :: 0 <= i < j < |rc.value| ==>
          VotesOf(talliedVotes, rc.value[i]) >= VotesOf(talliedVotes, rc.value[j])
      ensures rc.Some? && DistinctCandidates(talliedVotes) ==>
        forall i, j :: 0 <= i < j < |rc.value| && VotesOf(talliedVotes, rc.value[i]) == VotesOf(talliedVotes, rc.value[j]) ==>
          Position(Candidates(talliedVotes), rc.value[i]) < Position(Candidates(talliedVotes), rc.value[j])
    {
      match EliminatedCandidate()
      case None => None
      case Some(e) =>
        var ordered := Candidates(OrderByVotesDescending(talliedVotes));
        RemainingCandidatesFacts(talliedVotes, e);
        Some(Except(ordered, [e]))
    }

    /**
     * The candidate of the first tally, in the tallies' own order, that passes
     * the majority test; none when no tally does (TryGetWinner returning false).
     */
    function TryGetWinner(): (w: Option<C>)
      ensures w.Some? <==> exists i :: 0 <= i < |talliedVotes| && HasMajorityVote(totalVotes, talliedVotes[i].votes)
      ensures w.Some? ==>
        exists i :: 0 <= i < |talliedVotes| && talliedVotes[i].candidate == w.value
          && HasMajorityVote(totalVotes, talliedVotes[i].votes)
          && forall j :: 0 <= j < i ==> !HasMajorityVote(totalVotes, talliedVotes[j].votes)
    {
      var i := FirstWithMajority(talliedVotes, totalVotes);
      if i < |talliedVotes| then Some(talliedVotes[i].candidate) else None
    }
  }

  /** StartRound: the round keeps its number and tallies and fixes its total as their sum. */
  function StartRound<C(==)>(currentRound: int, talliedVotes: seq<Tally<C>>): (r: Round<C>)
    ensures r.roundNumber == currentRound && r.talliedVotes == talliedVotes
    ensures r.totalVotes == SumVotes(talliedVotes) && r.WellFormed()
  {
    Round(currentRound, talliedVotes, SumVotes(talliedVotes))
  }

  /** The facts about RemainingCandidates, stated on the tallies and the eliminated candidate. */
  lemma RemainingCandidatesFacts<C>(t: seq<Tally<C>>, e: C)
    requires e in Candidates(t)
    ensures var rc := Except(Candidates(OrderByVotesDescending(t)), [e]);
      && (forall c :: c in rc ==> c in Candidates(t) && c != e)
      && (forall k :: 0 <= k < |t| && t[k].candidate != e ==> t[k].candidate in rc)
      && Distinct(rc)
      && (DistinctCandidates(t) ==> |rc| == |t| - 1)
      && (DistinctCandidates(t) ==> forall i, j :: 0 <= i < j < |rc| ==> VotesOf(t, rc[i]) >= VotesOf(t, rc[j]))
      && (DistinctCandidates(t) ==> forall i, j :: 0 <= i < j < |rc| && VotesOf(t, rc[i]) == VotesOf(t, rc[j]) ==>
            Position(Candidates(t), rc[i]) < Position(Candidates(t), rc[j]))
  {
    var sorted := OrderByVotesDescending(t);
    var ordered := Candidates(sorted);
    SortByVotesIsStableSort(t, Descending);
    assert Elements([e]) == {e};
    var rc := ExceptFrom(ordered, {e});
    ExceptFromFacts(ordered, {e});
    forall c | c in rc ensures c in Candidates(t) && c != e {
      ExceptFromMember(ordered, {e}, c);
      CandidatesOfPermutation(t, sorted, c);
    }
    forall k | 0 <= k < |t| && t[k].candidate != e ensures t[k].candidate in rc {
      assert Candidates(t)[k] == t[k].candidate;
      CandidatesOfPermutation(t, sorted, t[k].candidate);
      ExceptFromMember(ordered, {e}, t[k].candidate);
    }
    if DistinctCandidates(t) {
      SortPreservesDistinctCandidates(t, Descending);
      assert Distinct(ordered);
      ExceptFromLength(ordered, {e});
      CandidatesOfPermutation(t, sorted, e);
      CountInSingleton(ordered, e);
      forall i, j | 0 <= i < j < |ordered| ensures VotesOf(t, ordered[i]) >= VotesOf(t, ordered[j]) {
        assert sorted[i] in multiset(t) && sorted[j] in multiset(t);
        VotesOfMember(t, sorted[i]);
        VotesOfMember(t, sorted[j]);
      }
      ExceptFromKeepsOrder(ordered, {e}, (a, b) => VotesOf(t, a) >= VotesOf(t, b));
      TiesInTallyOrder(t, sorted);
      ExceptFromKeepsOrder(ordered, {e},
        (a, b) => VotesOf(t, a) == VotesOf(t, b) ==> Position(Candidates(t), a) < Position(Candidates(t), b));
    }
  }

  /** In the descending sort of distinct tallies, the candidates of equal counts keep their tally order. */
  lemma TiesInTallyOrder<C>(t: seq<Tally<C>>, sorted: seq<Tally<C>>)
    requires DistinctCandidates(t) && sorted == OrderByVotesDescending(t)
    ensures var ordered := Candidates(sorted);
      forall i, j :: 0 <= i < j < |ordered| && VotesOf(t, ordered[i]) == VotesOf(t, ordered[j]) ==>
        Position(Candidates(t), ordered[i]) < Position(Candidates(t), ordered[j])
  {
    var ordered := Candidates(sorted);
    DistinctTallies(t);
    SortByVotesKeepsTieOrder(t, Descending);
    assert sorted == SortByVotes(t, Descending);
    forall i, j | 0 <= i < j < |ordered| && VotesOf(t, ordered[i]) == VotesOf(t, ordered[j])
      ensures Position(Candidates(t), ordered[i]) < Position(Candidates(t), ordered[j])
    {
      TiePairInTallyOrder(t, sorted[i], sorted[j]);
    }
  }

  lemma DistinctTallies<C>(t: seq<Tally<C>>)
    requires DistinctCandidates(t)
    ensures Distinct(t)
  {
  }

  /** Two tallies of equal count, in tally order, name candidates in tally order. */
  lemma TiePairInTallyOrder<C>(t: seq<Tally<C>>, x: Tally<C>, y: Tally<C>)
    requires DistinctCandidates(t) && x in multiset(t) && y in multiset(t)
    requires x.votes == y.votes ==> Position(t, x) < Position(t, y)
    requires VotesOf(t, x.candidate) == VotesOf(t, y.candidate)
    ensures Position(Candidates(t), x.candidate) < Position(Candidates(t), y.candidate)
  {
    VotesOfMember(t, x);
    VotesOfMember(t, y);
    PositionOfCandidate(t, x);
    PositionOfCandidate(t, y);
  }

  /** With distinct candidates, a tally and its candidate sit at the same index. */
  lemma PositionOfCandidate<C>(t: seq<Tally<C>>, x: Tally<C>)
    requires DistinctCandidates(t) && x in t
    ensures Position(Candidates(t), x.candidate) == Position(t, x)
  {
    var p := Position(t, x);
    var q := Position(Candidates(t), x.candidate);
    assert Candidates(t)[p] == x.candidate;
    assert t[q].candidate == x.candidate;
  }

  /** Two tally sequences with the same multiset have the same candidates. */
  lemma CandidatesOfPermutation<C>(a: seq<Tally<C>>, b: seq<Tally<C>>, c: C)
    requires multiset(a) == multiset(b)
    ensures c in Candidates(a) <==> c in Candidates(b)
  {
    if c in Candidates(a) {
      var i :| 0 <= i < |a| && a[i].candidate == c;
      assert a[i] in multiset(b);
      var j :| 0 <= j < |b| && b[j] == a[i];
      assert Candidates(b)[j] == c;
    }
    if c in Candidates(b) {
      var j :| 0 <= j < |b| && b[j].candidate == c;
      assert b[j] in multiset(a);
      var i :| 0 <= i < |a| && a[i] == b[j];
      assert Candidates(a)[i] == c;
    }
  }

  lemma ConsDistinctCandidates<C>(y: Tally<C>, rest: seq<Tally<C>>)
    requires DistinctCandidates(rest)
    requires forall k :: 0 <= k < |rest| ==> rest[k].candidate != y.candidate
    ensures DistinctCandidates([y] + rest)
  {
    var t := [y] + rest;
    forall i, j | 0 <= i < j < |t| ensures t[i].candidate != t[j].candidate {
      assert t[j] == rest[j - 1];
      if i > 0 {
        assert t[i] == rest[i - 1];
      }
    }
  }

  lemma {:induction false} InsertPreservesDistinctCandidates<C>(x: Tally<C>, s: seq<Tally<C>>, dir: Direction)
    requires DistinctCandidates(s) && x.candidate !in Candidates(s)
    ensures DistinctCandidates(Insert(x, s, dir))
  {
    if !(s == [] || Before(x.votes, s[0].votes, dir)) {
      forall k | 0 <= k < |s[1..]| ensures Candidates(s[1..])[k] != x.candidate {
        assert Candidates(s)[k + 1] == s[k + 1].candidate;
      }
      InsertPreservesDistinctCandidates(x, s[1..], dir);
      InsertPermutes(x, s[1..], dir);
      var rest := Insert(x, s[1..], dir);
      forall k | 0 <= k < |rest| ensures rest[k].candidate != s[0].candidate {
        assert rest[k] in multiset([x] + s[1..]);
        if rest[k] != x {
          var p :| 0 <= p < |s[1..]| && s[1..][p] == rest[k];
          assert s[p + 1] == rest[k];
        } else {
          assert Candidates(s)[0] == s[0].candidate;
        }
      }
      ConsDistinctCandidates(s[0], rest);
    } else {
      forall k | 0 <= k < |s| ensures s[k].candidate != x.candidate {
        assert Candidates(s)[k] == s[k].candidate;
      }
    }
  }

  lemma {:induction false} SortPreservesDistinctCandidates<C>(t: seq<Tally<C>>, dir: Direction)
    requires DistinctCandidates(t)
    ensures DistinctCandidates(SortByVotes(t, dir))
  {
    if t != [] {
      var rest := SortByVotes(t[1..], dir);
      SortPreservesDistinctCandidates(t[1..], dir);
      SortByVotesIsStableSort(t[1..], dir);
      forall k | 0 <= k < |t[1..]| ensures Candidates(t[1..])[k] != t[0].candidate {
        assert t[1..][k] == t[k + 1];
      }
      CandidatesOfPermutation(rest, t[1..], t[0].candidate);
      InsertPreservesDistinctCandidates(t[0], rest, dir);
    }
  }

  /**
   * With non-negative counts summing to the total, no two tallies pass the
   * majority test: the winner is unique and "first" never has to choose.
   */
  lemma AtMostOneMajority<C>(r: Round<C>, i: int, j: int)
    requires r.WellFormed() && NonNegative(r.talliedVotes)
    requires 0 <= i < |r.talliedVotes| && 0 <= j < |r.talliedVotes| && i != j
    ensures !(HasMajorityVote(r.totalVotes, r.talliedVotes[i].votes) && HasMajorityVote(r.totalVotes, r.talliedVotes[j].votes))
  {
    SumVotesBoundsTwo(r.talliedVotes, i, j);
    SumVotesBoundsOne(r.talliedVotes, i);
  }

  /** Under the same conditions, any tally with a majority is the round's winner. */
  lemma MajorityCandidateWins<C>(r: Round<C>, i: int)
    requires r.WellFormed() && NonNegative(r.talliedVotes)
    requires 0 <= i < |r.talliedVotes| && HasMajorityVote(r.totalVotes, r.talliedVotes[i].votes)
    ensures r.TryGetWinner() == Some(r.talliedVotes[i].candidate)
  {
    var k := FirstWithMajority(r.talliedVotes, r.totalVotes);
    if k != i {
      AtMostOneMajority(r, i, k);
    }
  }

  /** A round whose non-negative counts sum to zero has no winner. */
  lemma ZeroTotalHasNoWinner<C>(r: Round<C>)
    requires r.WellFormed() && NonNegative(r.talliedVotes) && r.totalVotes == 0
    ensures r.TryGetWinner() == None
  {
    forall i | 0 <= i < |r.talliedVotes| ensures !HasMajorityVote(r.totalVotes, r.talliedVotes[i].votes) {
      SumVotesBoundsOne(r.talliedVotes, i);
    }
  }
}
