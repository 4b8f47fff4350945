/**
 * The ranked-choice (instant-runoff) election loop (RankedChoiceElection.cs).
 * The tally producers for the first round and for each later round are not
 * part of this model: they are passed in as functions, with the ballots
 * already bound into them.
 */
module RankedChoiceElection {
  import opened Wrappers
  import opened Interfaces
  import opened RankedChoiceRound

  /**
   * Round k of the election: round 0 tallies the first choices over all
   * candidates, and round k > 0 tallies from round k - 1.
   */
  function RoundAt<C(==)>(
    candidates: seq<C>,
    tallyFirstRound: seq<C> -> seq<Tally<C>>,
    tallyAdditionalRound: Round<C> -> seq<Tally<C>>,
    k: nat): (r: Round<C>)
    ensures r.roundNumber == k && r.WellFormed()
  {
    if k == 0 then StartRound(0, tallyFirstRound(candidates))
    else StartRound(k, tallyAdditionalRound(RoundAt(candidates, tallyFirstRound, tallyAdditionalRound, k - 1)))
  }

  /** Round k > 0 is started from round k - 1's tally. */
  lemma NextRound<C>(
    candidates: seq<C>,
    tallyFirstRound: seq<C> -> seq<Tally<C>>,
    tallyAdditionalRound: Round<C> -> seq<Tally<C>>,
    k: nat,
    previous: Round<C>)
    requires k > 0 && previous == RoundAt(candidates, tallyFirstRound, tallyAdditionalRound, k - 1)
    ensures RoundAt(candidates, tallyFirstRound, tallyAdditionalRound, k) == StartRound(k, tallyAdditionalRound(previous))
  {
  }

  /** Appending round k to rounds 0 .. k - 1 gives rounds 0 .. k. */
  lemma ExtendRounds<C>(
    candidates: seq<C>,
    tallyFirstRound: seq<C> -> seq<Tally<C>>,
    tallyAdditionalRound: Round<C> -> seq<Tally<C>>,
    rounds: seq<Round<C>>,
    k: nat)
    requires |rounds| == k
    requires forall i :: 0 <= i < k ==> rounds[i] == RoundAt(candidates, tallyFirstRound, tallyAdditionalRound, i)
    ensures var next := rounds + [RoundAt(candidates, tallyFirstRound, tallyAdditionalRound, k)];
      forall i :: 0 <= i <= k ==> next[i] == RoundAt(candidates, tallyFirstRound, tallyAdditionalRound, i)
  {
  }

  /** TryGetWinner of round k. */
  function WinnerOfRound<C(==)>(
    candidates: seq<C>,
    tallyFirstRound: seq<C> -> seq<Tally<C>>,
    tallyAdditionalRound: Round<C> -> seq<Tally<C>>,
    k: nat): Option<C>
  {
    RoundAt(candidates, tallyFirstRound, tallyAdditionalRound, k).TryGetWinner()
  }

  /** The winners of the rounds, as a function of the round number. */
  function RoundWinners<C(==)>(
    candidates: seq<C>,
    tallyFirstRound: seq<C> -> seq<Tally<C>>,
    tallyAdditionalRound: Round<C> -> seq<Tally<C>>): nat -> Option<C>
  {
    (n: nat) => WinnerOfRound(candidates, tallyFirstRound, tallyAdditionalRound, n)
  }

  lemma RoundWinnersAt<C>(
    candidates: seq<C>,
    tallyFirstRound: seq<C> -> seq<Tally<C>>,
    tallyAdditionalRound: Round<C> -> seq<Tally<C>>)
    ensures forall n: nat ::
      RoundWinners(candidates, tallyFirstRound, tallyAdditionalRound)(n) == WinnerOfRound(candidates, tallyFirstRound, tallyAdditionalRound, n)
  {
  }

  /**
   * The first winner among winners(k), ..., winners(bound - 1), failing with
   * NoMajorityWithinRounds when there is none.
   */
  function FirstWinner<C>(winners: nat -> Option<C>, bound: nat, k: nat): Result<C, ElectionError>
    decreases bound - k
  {
    if k >= bound then Failure(NoMajorityWithinRounds)
    else match winners(k)
      case Some(w) => Success(w)
      case None => FirstWinner(winners, bound, k + 1)
  }

  lemma {:induction false} FirstWinnerFails<C>(winners: nat -> Option<C>, bound: nat, k: nat)
    ensures var o := FirstWinner(winners, bound, k);
      (o.Failure? <==> forall n: nat :: k <= n < bound ==> winners(n).None?)
      && (o.Failure? ==> o.error == NoMajorityWithinRounds)
    decreases bound - k
  {
    if k < bound && winners(k).None? {
      FirstWinnerFails(winners, bound, k + 1);
    }
  }

  lemma {:induction false} FirstWinnerIsFirst<C>(winners: nat -> Option<C>, bound: nat, k: nat)
    ensures var o := FirstWinner(winners, bound, k);
      o.Success? ==> exists n: nat :: (k <= n < bound && winners(n) == Some(o.value)
        && forall m: nat :: k <= m < n ==> winners(m).None?)
    decreases bound - k
  {
    if k < bound && winners(k).None? {
      FirstWinnerIsFirst(winners, bound, k + 1);
    }
  }

  /** The outcome of the rounds from k on: the winner of the first of them to have one, within |candidates| rounds. */
  function OutcomeFrom<C(==)>(
    candidates: seq<C>,
    tallyFirstRound: seq<C> -> seq<Tally<C>>,
    tallyAdditionalRound: Round<C> -> seq<Tally<C>>,
    k: nat): Result<C, ElectionError>
  {
    FirstWinner(RoundWinners(candidates, tallyFirstRound, tallyAdditionalRound), |candidates|, k)
  }

  /** One step of the outcome: round k's winner if it has one, otherwise the outcome from round k + 1. */
  lemma OutcomeFromStep<C>(
    candidates: seq<C>,
    tallyFirstRound: seq<C> -> seq<Tally<C>>,
    tallyAdditionalRound: Round<C> -> seq<Tally<C>>,
    k: nat,
    w: Option<C>)
    requires k < |candidates| && w == WinnerOfRound(candidates, tallyFirstRound, tallyAdditionalRound, k)
    ensures OutcomeFrom(candidates, tallyFirstRound, tallyAdditionalRound, k) ==
      if w.Some? then Success(w.value) else OutcomeFrom(candidates, tallyFirstRound, tallyAdditionalRound, k + 1)
  {
  }

  /** Past the last round, the outcome is NoMajorityWithinRounds. */
  lemma OutcomeFromEnd<C>(
    candidates: seq<C>,
    tallyFirstRound: seq<C> -> seq<Tally<C>>,
    tallyAdditionalRound: Round<C> -> seq<Tally<C>>)
    ensures OutcomeFrom(candidates, tallyFirstRound, tallyAdditionalRound, |candidates|) == Failure(NoMajorityWithinRounds)
  {
  }

  /**
   * What Run promises: with no candidates the round list's capacity hint
   * |candidates| - 1 is negative and creating the list fails; otherwise the
   * outcome of the rounds from round 0.
   */
  function Outcome<C(==)>(
    candidates: seq<C>,
    tallyFirstRound: seq<C> -> seq<Tally<C>>,
    tallyAdditionalRound: Round<C> -> seq<Tally<C>>): Result<C, ElectionError>
  {
    if |candidates| == 0 then Failure(CapacityOutOfRange)
    else OutcomeFrom(candidates, tallyFirstRound, tallyAdditionalRound, 0)
  }

  /** The outcome from round k fails exactly when none of rounds k .. |candidates| - 1 has a winner. */
  lemma OutcomeFromFails<C>(
    candidates: seq<C>,
    tallyFirstRound: seq<C> -> seq<Tally<C>>,
    tallyAdditionalRound: Round<C> -> seq<Tally<C>>,
    k: nat)
    ensures var o := OutcomeFrom(candidates, tallyFirstRound, tallyAdditionalRound, k);
      (o.Failure? <==> forall n: nat :: k <= n < |candidates| ==> WinnerOfRound(candidates, tallyFirstRound, tallyAdditionalRound, n).None?)
      && (o.Failure? ==> o.error == NoMajorityWithinRounds)
  {
    RoundWinnersAt(candidates, tallyFirstRound, tallyAdditionalRound);
    FirstWinnerFails(RoundWinners(candidates, tallyFirstRound, tallyAdditionalRound), |candidates|, k);
  }

  /**
   * A successful outcome from round k is the winner of the first round among
   * k .. |candidates| - 1 that has one.
   */
  lemma OutcomeFromIsFirstWinner<C>(
    candidates: seq<C>,
    tallyFirstRound: seq<C> -> seq<Tally<C>>,
    tallyAdditionalRound: Round<C> -> seq<Tally<C>>,
    k: nat)
    ensures var o := OutcomeFrom(candidates, tallyFirstRound, tallyAdditionalRound, k);
      o.Success? ==> exists n: nat :: (k <= n < |candidates|
        && WinnerOfRound(candidates, tallyFirstRound, tallyAdditionalRound, n) == Some(o.value)
        && forall m: nat :: k <= m < n ==> WinnerOfRound(candidates, tallyFirstRound, tallyAdditionalRound, m).None?)
  {
    RoundWinnersAt(candidates, tallyFirstRound, tallyAdditionalRound);
    FirstWinnerIsFirst(RoundWinners(candidates, tallyFirstRound, tallyAdditionalRound), |candidates|, k);
  }

  /**
   * A winner the election returns passed the strict-majority test in its round,
   * and with no candidates the election fails.
   */
  lemma OutcomeWinnerHasMajority<C>(
    candidates: seq<C>,
    tallyFirstRound: seq<C> -> seq<Tally<C>>,
    tallyAdditionalRound: Round<C> -> seq<Tally<C>>)
    ensures var o := Outcome(candidates, tallyFirstRound, tallyAdditionalRound);
      && (|candidates| == 0 ==> o == Failure(CapacityOutOfRange))
      && (o.Failure? && |candidates| > 0 ==> o.error == NoMajorityWithinRounds)
      && (o.Success? ==> exists n :: 0 <= n < |candidates| && WinsByMajority(RoundAt(candidates, tallyFirstRound, tallyAdditionalRound, n), o.value))
  {
    OutcomeFromFails(candidates, tallyFirstRound, tallyAdditionalRound, 0);
    OutcomeFromIsFirstWinner(candidates, tallyFirstRound, tallyAdditionalRound, 0);
  }

  /** Some tally of round `r` for candidate `c` passes the strict-majority test. */
  predicate WinsByMajority<C(==)>(r: Round<C>, c: C)
  {
    exists i :: 0 <= i < |r.talliedVotes| && r.talliedVotes[i].candidate == c
      && HasMajorityVote(r.totalVotes, r.talliedVotes[i].votes)
  }

  /**
   * One iteration of the round loop: the first round is started from the
   * first-round tally of the candidates, a later one from the additional-round
   * tally of the previous round; then the new round is asked for its winner.
   */
  method PlayRound<C(==)>(
    candidates: seq<C>,
    tallyFirstRound: seq<C> -> seq<Tally<C>>,
    tallyAdditionalRound: Round<C> -> seq<Tally<C>>,
    roundResults: seq<Round<C>>)
    returns (roundResult: Round<C>, w: Option<C>)
    requires |roundResults| > 0 ==>
      roundResults[|roundResults| - 1] == RoundAt(candidates, tallyFirstRound, tallyAdditionalRound, |roundResults| - 1)
    ensures roundResult == RoundAt(candidates, tallyFirstRound, tallyAdditionalRound, |roundResults|)
    ensures roundResult.roundNumber == |roundResults|
    ensures w == WinnerOfRound(candidates, tallyFirstRound, tallyAdditionalRound, |roundResults|)
  {
    var roundNumber := |roundResults|;
    if roundNumber > 0 {
      roundResult := StartRound(roundNumber, tallyAdditionalRound(roundResults[roundNumber - 1]));
      NextRound(candidates, tallyFirstRound, tallyAdditionalRound, roundNumber, roundResults[roundNumber - 1]);
    } else {
      roundResult := StartRound(0, tallyFirstRound(candidates));
    }
    w := roundResult.TryGetWinner();
  }

  /**
   * Run: at most |candidates| rounds, round n built from round n - 1 and
   * numbered n; returns the winner of the first round that has one, building no
   * later round, and fails when no round within the bound has a winner. The
   * rounds built are returned beside the result.
   */
  method Run<C(==)>(
    candidates: seq<C>,
    tallyFirstRound: seq<C> -> seq<Tally<C>>,
    tallyAdditionalRound: Round<C> -> seq<Tally<C>>)
    returns (winner: Result<C, ElectionError>, roundResults: seq<Round<C>>)
    ensures winner == Outcome(candidates, tallyFirstRound, tallyAdditionalRound)
    ensures |roundResults| <= |candidates|
    ensures forall i :: 0 <= i < |roundResults| ==>
      roundResults[i] == RoundAt(candidates, tallyFirstRound, tallyAdditionalRound, i) && roundResults[i].roundNumber == i
    ensures forall i :: 0 <= i < |roundResults| - 1 ==> WinnerOfRound(candidates, tallyFirstRound, tallyAdditionalRound, i).None?
    ensures winner.Success? ==>
      && |roundResults| > 0
      && WinnerOfRound(candidates, tallyFirstRound, tallyAdditionalRound, |roundResults| - 1) == Some(winner.value)
    ensures |candidates| == 0 ==> winner == Failure(CapacityOutOfRange) && roundResults == []
    ensures winner.Failure? && |candidates| > 0 ==>
      && winner.error == NoMajorityWithinRounds
      && |roundResults| == |candidates|
      && forall i :: 0 <= i < |roundResults| ==> WinnerOfRound(candidates, tallyFirstRound, tallyAdditionalRound, i).None?
  {
    roundResults := [];
    if |candidates| == 0 {
      return Failure(CapacityOutOfRange), roundResults;
    }
    for roundNumber := 0 to |candidates|
      invariant |roundResults| == roundNumber
      invariant forall i :: 0 <= i < roundNumber ==> roundResults[i] == RoundAt(candidates, tallyFirstRound, tallyAdditionalRound, i)
      invariant forall i :: 0 <= i < roundNumber ==> WinnerOfRound(candidates, tallyFirstRound, tallyAdditionalRound, i).None?
      invariant Outcome(candidates, tallyFirstRound, tallyAdditionalRound) == OutcomeFrom(candidates, tallyFirstRound, tallyAdditionalRound, roundNumber)
    {
      var roundResult, w := PlayRound(candidates, tallyFirstRound, tallyAdditionalRound, roundResults);
      ExtendRounds(candidates, tallyFirstRound, tallyAdditionalRound, roundResults, roundNumber);
      roundResults := roundResults + [roundResult];
      OutcomeFromStep(candidates, tallyFirstRound, tallyAdditionalRound, roundNumber, w);
      if w.Some? {
        winner := Success(w.value);
        return;
      }
    }
    OutcomeFromEnd(candidates, tallyFirstRound, tallyAdditionalRound);
    winner := Failure(NoMajorityWithinRounds);
  }
}
