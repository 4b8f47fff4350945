/** The plurality election (PluralityElection.cs): tally the valid votes, pick the plurality winner. */
module PluralityElection {
  import opened Wrappers
  import opened Interfaces
  import opened Linq
  import opened Tallies

  /**
   * Run: the valid candidate with the most ballots, ties going to the one whose
   * first ballot comes earliest; fails when no ballot names a valid candidate.
   */
  function Run<C(==)>(ballots: seq<C>, candidates: seq<C>): (w: Result<C, ElectionError>)
    ensures w.Failure? <==> forall k :: 0 <= k < |ballots| ==> ballots[k] !in candidates
    ensures w.Failure? ==> w.error == NoTallies
    ensures w.Success? ==> w.value in candidates && w.value in ballots
    ensures w.Success? ==> forall c :: c in candidates ==> multiset(ballots)[c] <= multiset(ballots)[w.value]
    ensures w.Success? ==> forall c :: c in candidates && c != w.value && multiset(ballots)[c] == multiset(ballots)[w.value] ==>
      Position(ballots, w.value) < Position(ballots, c)
  {
    var o := TallyValidVotes(ballots, candidates);
    NoTalliesIffNoValidBallot(ballots, candidates, o);
    if o == [] then SelectPluralityWinner(o)
    else
      var i := FirstExtreme(o, Descending);
      SortByVotesHead(o, Descending);
      WinnerIsValid(ballots, candidates, o, i);
      MostVotes(ballots, candidates, o, i);
      TieToEarliest(ballots, candidates, o, i);
      SelectPluralityWinner(o)
  }

  /** The valid-vote tally is empty exactly when no ballot names a valid candidate. */
  lemma NoTalliesIffNoValidBallot<C>(ballots: seq<C>, candidates: seq<C>, o: seq<Tally<C>>)
    requires o == TallyValidVotes(ballots, candidates)
    ensures o == [] <==> forall k :: 0 <= k < |ballots| ==> ballots[k] !in candidates
  {
    if o != [] {
      assert Candidates(o)[0] == o[0].candidate;
      var k := Position(ballots, o[0].candidate);
      assert ballots[k] in candidates;
    }
  }

  /** The candidate of a valid-vote row is valid and is on some ballot. */
  lemma WinnerIsValid<C>(ballots: seq<C>, candidates: seq<C>, o: seq<Tally<C>>, i: nat)
    requires o == TallyValidVotes(ballots, candidates) && i < |o|
    ensures o[i].candidate in candidates && o[i].candidate in ballots
  {
    assert Candidates(o)[i] == o[i].candidate;
  }

  /** A valid candidate named by some ballot has a row in the valid-vote tally. */
  lemma RowFor<C>(ballots: seq<C>, candidates: seq<C>, o: seq<Tally<C>>, c: C) returns (j: nat)
    requires o == TallyValidVotes(ballots, candidates)
    requires c in candidates && c in ballots
    ensures j < |o| && o[j].candidate == c && o[j].votes == multiset(ballots)[c]
  {
    var n := Position(ballots, c);
    assert ballots[n] in candidates;
    assert c in Candidates(o);
    j :| 0 <= j < |o| && Candidates(o)[j] == c;
  }

  /** No valid candidate is on more ballots than the candidate of a row with the most votes. */
  lemma MostVotes<C>(ballots: seq<C>, candidates: seq<C>, o: seq<Tally<C>>, i: nat)
    requires o == TallyValidVotes(ballots, candidates)
    requires i < |o| && forall j :: 0 <= j < |o| ==> o[j].votes <= o[i].votes
    ensures forall c :: c in candidates ==> multiset(ballots)[c] <= multiset(ballots)[o[i].candidate]
  {
    forall c | c in candidates ensures multiset(ballots)[c] <= multiset(ballots)[o[i].candidate] {
      if c in ballots {
        var j := RowFor(ballots, candidates, o, c);
      }
    }
  }

  /** A valid candidate tied with the earliest row with the most votes first appears later on the ballots. */
  lemma TieToEarliest<C>(ballots: seq<C>, candidates: seq<C>, o: seq<Tally<C>>, i: nat)
    requires o == TallyValidVotes(ballots, candidates)
    requires i < |o| && forall j :: 0 <= j < i ==> o[j].votes < o[i].votes
    ensures forall c :: c in candidates && c != o[i].candidate && multiset(ballots)[c] == multiset(ballots)[o[i].candidate] ==>
      Position(ballots, o[i].candidate) < Position(ballots, c)
  {
    forall c | c in candidates && c != o[i].candidate && multiset(ballots)[c] == multiset(ballots)[o[i].candidate]
      ensures Position(ballots, o[i].candidate) < Position(ballots, c)
    {
      assert o[i].votes >= 1;
      var j := RowFor(ballots, candidates, o, c);
      assert i < j;
      WinnerIsValid(ballots, candidates, o, i);
      LaterRowLaterPosition(ballots, o, i, j);
    }
  }

  /** Of two rows for different candidates on the ballots, the later row's candidate first appears later. */
  lemma LaterRowLaterPosition<C>(ballots: seq<C>, o: seq<Tally<C>>, i: nat, j: nat)
    requires InFirstAppearanceOrder(o, ballots)
    requires i < j < |o| && o[i].candidate != o[j].candidate
    requires o[i].candidate in ballots && o[j].candidate in ballots
    ensures Position(ballots, o[i].candidate) < Position(ballots, o[j].candidate)
  {
    var x, y := o[i].candidate, o[j].candidate;
    assert Position(ballots, x) <= Position(ballots, y);
    DistinctPositions(ballots, x, y);
  }

  /** Different members of a sequence first appear at different positions. */
  lemma DistinctPositions<C>(s: seq<C>, x: C, y: C)
    requires x in s && y in s && x != y
    ensures Position(s, x) != Position(s, y)
  {
    assert s[Position(s, x)] == x;
  }
}
