# Election commission core in Dafny

This project models the decision-making core of the ElectionComission C#
repository. It covers two election kinds.

- **Ranked-choice (instant-runoff) rounds.** A `RankedChoiceRound` is an
  immutable value that holds:
  - a round number;
  - the round's `(candidate, votes)` tallies;
  - a total fixed when the round is started.

  From these it derives three things:
  - the eliminated candidate, the earliest entry with the fewest votes;
  - the remaining candidates, in descending vote order without the
    eliminated one;
  - the majority winner, the first tally with `votes > total / 2`.

  `RankedChoiceElection.Run` builds one round per iteration, for at most
  `|candidates|` rounds. It returns the winner of the first round that has one.
- **Plurality.** `PluralityElection.Run` counts single-vote ballots per
  candidate (`TallyValidVotes`) and picks the first entry of a stable
  descending sort (`SelectPluralityWinner`).

## Modules

| module | file | what it holds |
|---|---|---|
| `Wrappers` | `wrappers.dfy` | `Option` and `Result` |
| `Interfaces` | `interfaces.dfy` | the `Tally` datatype; the `ElectionError` kinds; helpers for candidate lists, first positions and distinctness |
| `Linq` | `linq.dfy` | the LINQ operators the core uses: `Sum`, stable `OrderBy`/`OrderByDescending` (an insertion sort), and `Except` |
| `RankedChoiceRound` | `ranked_choice_round.dfy` | the `Round` datatype with its derived values, `StartRound`, and the properties of the majority test |
| `Tallies` | `tallies.dfy` | `GroupBy`+`Count`, the inner join `ForSpecificCandidates`, `TallyValidVotes` and `SelectPluralityWinner` |
| `RankedChoiceElection` | `ranked_choice_election.dfy` | the round loop, as a method checked against a reference definition of the outcome |
| `PluralityElection` | `plurality_election.dfy` | the plurality composition and what it guarantees about the ballots |

### How the model maps to the code

- **Candidates and ballots.** A candidate is any type with equality (`C(==)`).
  A single-vote ballot is just the candidate it names.
- **Failures** are `Result`/`Option` values: each exception of the modelled
  files that the model represents becomes a failure value.
  - `NoTallies` (an `ElectionError`): `First()` on an empty sequence, in
    `SelectPluralityWinner`.
  - `NoMajorityWithinRounds` (an `ElectionError`): the
    `NotImplementedException` thrown after the round loop.
  - `CapacityOutOfRange` (an `ElectionError`): the list constructor given
    capacity `candidates.Count - 1 = -1` when there are no candidates.
  - `None`: `EliminatedCandidate` and `RemainingCandidates` return `None`
    where `First()` would throw on an empty tally.

  The checked overflow of `Sum` when the round is constructed is not
  represented, because counts are unbounded (see "Left out").
- **The majority test** uses C#'s integer division `totalVotes / 2`. That
  division truncates toward zero, and `HalfTowardZero` models it. It differs
  from floor division only when the total is negative.
- **The round loop** is a Dafny `method` with a `for` loop over the round
  number. It appends to a `seq` of rounds and returns early on a winner. Its
  contract ties the result to `Outcome`, a recursive reference definition.
  The lemmas about `Outcome` give the first-winning-round and strict-majority
  guarantees.

## Model

| member | source | states |
|---|---|---|
| `RankedChoiceRound.StartRound` | ElectionComission/RankedChoiceRound.cs:14-30 | the new round keeps the given round number and the given tallies in order, and its total is the sum of the tallies' vote counts |
| `RankedChoiceRound.HalfTowardZero` | ElectionComission/RankedChoiceRound.cs:92 | `totalVotes / 2` rounds toward zero: the remainder is 0 or 1 for non-negative totals and 0 or -1 for negative ones |
| `RankedChoiceRound.HasMajorityVote` | ElectionComission/RankedChoiceRound.cs:90-94 | for a non-negative total, the test passes exactly when twice the votes exceed the total; for a negative total, exactly when twice the votes exceed the total rounded up to even |
| `RankedChoiceRound.Round.EliminatedCandidate` | ElectionComission/RankedChoiceRound.cs:54-57 | fails exactly on empty tallies; otherwise returns a tally's candidate whose votes are at most every tally's votes, and every earlier tally has strictly more votes (stable sort, first minimum) |
| `RankedChoiceRound.Round.RemainingCandidates` | ElectionComission/RankedChoiceRound.cs:65-69 | fails exactly on empty tallies; otherwise holds only tally candidates other than the eliminated one, holds every such candidate, and has no duplicates; with distinct tally candidates it has length \|tallies\| - 1, is in non-increasing vote order, and lists candidates with equal votes in tally order (stable sort) |
| `RankedChoiceRound.Round.TryGetWinner` | ElectionComission/RankedChoiceRound.cs:75-88 | returns a winner exactly when some tally passes the majority test, and the winner is the candidate of the first tally, in tally order, that passes |
| `RankedChoiceRound.FirstWithMajority` | ElectionComission/RankedChoiceRound.cs:77-81 | the index of the first tally passing the majority test, or \|tallies\| when none passes; every earlier tally fails the test (`Any` then `First(v => HasMajorityVote(...))`) |
| `RankedChoiceRound.AtMostOneMajority` | ElectionComission/RankedChoiceRound.cs:18 | with non-negative counts summing to the total, no two distinct tallies both pass the majority test |
| `RankedChoiceRound.MajorityCandidateWins` | ElectionComission/RankedChoiceRound.cs:75-94 | under the same conditions, any tally that passes the majority test names the round's winner |
| `RankedChoiceRound.ZeroTotalHasNoWinner` | ElectionComission/RankedChoiceRound.cs:77-93 | a round with non-negative counts summing to zero has no winner |
| `RankedChoiceRound.RemainingCandidatesFacts` | ElectionComission/RankedChoiceRound.cs:65-69 | the properties of `RemainingCandidates`, stated for the descending sort followed by `Except` on any tally sequence that contains the eliminated candidate |
| `Linq.SumVotes` | ElectionComission/RankedChoiceRound.cs:18 | `Sum(t => t.Votes)`: non-negative when no count is negative; `SumVotesAppend`, `SumVotesBoundsOne` and `SumVotesBoundsTwo` add that it splits over concatenation and that one count, or two different counts together, never exceed it |
| `Linq.OrderByVotes` | ElectionComission/RankedChoiceRound.cs:55 | `OrderBy(t => t.Votes)`: ascending, a permutation of its input, the same entries per count in input order, and its head is the input's earliest minimum |
| `Linq.OrderByVotesDescending` | ElectionComission/RankedChoiceRound.cs:66 | `OrderByDescending(t => t.Votes)`: descending, a permutation of its input, the same entries per count in input order, and its head is the input's earliest maximum |
| `Linq.SortByVotesKeepsTieOrder` | ElectionComission/RankedChoiceRound.cs:66 | on duplicate-free input, of two entries with equal counts the one placed first also comes first in the input |
| `Linq.Except` | ElectionComission/RankedChoiceRound.cs:68 | `first.Except(second)` holds only elements of `first` not in `second`, holds every such element, and has no duplicates |
| `Linq.SortByVotesIsStableSort` | ElectionComission/RankedChoiceRound.cs:55 | the `OrderBy`/`OrderByDescending` model is sorted, is a permutation of its input, and keeps the input order among entries with equal votes |
| `Linq.SortByVotesHead` | ElectionComission/RankedChoiceRound.cs:55-56 | the first entry of the stable sort is the earliest minimum (ascending) or the earliest maximum (descending) of the input |
| `Linq.FirstExtreme` | ElectionComission/Tallies.cs:31-32 | the index of an entry that may precede every entry, with no earlier entry able to precede it |
| `Linq.ExceptFromFacts` | ElectionComission/RankedChoiceRound.cs:68 | `Except` keeps exactly the elements of the first sequence that are not in the second, and yields each of them once |
| `Linq.ExceptFromLength` | ElectionComission/RankedChoiceRound.cs:68 | on a duplicate-free sequence, `Except` removes exactly the elements found in the excluded set |
| `Linq.ExceptFromKeepsOrder` | ElectionComission/RankedChoiceRound.cs:66-68 | `Except` keeps a non-increasing key order of its input |
| `Tallies.GroupAndCount` | ElectionComission/Tallies.cs:14-17 | `GroupBy` + `Count` gives at most one row per ballot; `GroupAndCountRows`, `GroupAndCountCovers`, `GroupAndCountOrder` and `GroupAndCountSumValid` state what the rows are |
| `Tallies.GroupAndCountRows` | ElectionComission/Tallies.cs:14-17 | the grouped rows name distinct candidates, each from the ballots, and each row's count is the number of ballots naming its candidate |
| `Tallies.GroupAndCountCovers` | ElectionComission/Tallies.cs:14-17 | every candidate named on a ballot has a group row |
| `Tallies.GroupAndCountOrder` | ElectionComission/Tallies.cs:15 | group rows come in strictly increasing order of each candidate's first ballot |
| `Tallies.GroupAndCountSumValid` | ElectionComission/Tallies.cs:14-17 | the counts of the rows for valid candidates add up to the number of ballots naming a valid candidate |
| `Tallies.ForSpecificCandidates` | ElectionComission/Tallies.cs:41-47 | the inner join keeps only input rows whose candidate is valid; `JoinMember`, `JoinKeepsOrder` and `JoinDistinct` state that it keeps all of them, in input order, once each for a duplicate-free valid list |
| `Tallies.JoinMember` | ElectionComission/Tallies.cs:41-47 | a row is in the join exactly when it is an input row whose candidate is valid |
| `Tallies.JoinKeepsOrder` | ElectionComission/Tallies.cs:41-47 | the join keeps the outer (tally) order, so first-appearance order survives it |
| `Tallies.JoinDistinct` | ElectionComission/Tallies.cs:41-47 | with distinct valid candidates and distinct rows, the join has distinct candidates and its counts sum to the counts of the valid rows |
| `Tallies.TallyValidVotes` | ElectionComission/Tallies.cs:12-21 | every row counts the ballots naming its candidate, is at least 1 and names a valid candidate on some ballot; every valid candidate on a ballot has a row; rows follow first-appearance order; with distinct valid candidates the rows are distinct and sum to the number of valid ballots |
| `Tallies.SelectPluralityWinner` | ElectionComission/Tallies.cs:28-34 | fails with `NoTallies` exactly on empty input; otherwise returns the candidate of the earliest tally with the most votes |
| `RankedChoiceElection.RoundAt` | ElectionComission/Elections/RankedChoiceElection.cs:28-35 | round k carries round number k and a total equal to the sum of its tallies |
| `RankedChoiceElection.OutcomeFromFails` | ElectionComission/Elections/RankedChoiceElection.cs:26-45 | the outcome from round k fails exactly when none of rounds k to \|candidates\| - 1 has a winner, and then the error is `NoMajorityWithinRounds` |
| `RankedChoiceElection.OutcomeFromIsFirstWinner` | ElectionComission/Elections/RankedChoiceElection.cs:26-42 | a successful outcome from round k is the winner of a round within the bound, and no earlier round from k on has a winner |
| `RankedChoiceElection.OutcomeWinnerHasMajority` | ElectionComission/Elections/RankedChoiceElection.cs:23-45 | with no candidates the election fails with `CapacityOutOfRange`; otherwise every failure is `NoMajorityWithinRounds`; a returned winner has a tally passing the strict-majority test in some round within the bound |
| `RankedChoiceElection.PlayRound` | ElectionComission/Elections/RankedChoiceElection.cs:28-39 | one loop iteration: the round it starts is `RoundAt` of the number of rounds built so far, carries that round number, and its winner is that round's `TryGetWinner` |
| `RankedChoiceElection.Run` | ElectionComission/Elections/RankedChoiceElection.cs:21-46 | returns `Outcome`; builds at most \|candidates\| rounds; round i is `RoundAt` i and is numbered i; no round before the last built has a winner; on success the last round's winner is the result; on `NoMajorityWithinRounds` all \|candidates\| rounds were built and none has a winner; with no candidates it builds no round |
| `PluralityElection.Run` | ElectionComission/Elections/PluralityElection.cs:7-14 | fails with `NoTallies` exactly when no ballot names a valid candidate; otherwise the winner is a valid candidate on some ballot, no valid candidate has more ballots, and any tied candidate has its first ballot later |

## Left out

- `TallyFirstRoundVotes` and `TallyAdditionalRoundVotes`, the per-round tally producers, are not part of this model. `RankedChoiceElection.Run` takes them as function parameters, already bound to the ballots, so their carry-forward and join behaviour is not modelled.
- The tally producers are modelled as total functions, so a failure raised while producing a round's tally is not represented. For instance, reading `RemainingCandidates` of an empty previous round throws in the code, but here the loop goes on to the next round.
- `RankedChoiceElection.Run` also returns its list of rounds next to the result, so the state of the loop can be stated. The C# method returns only the winner.
- `RankedChoiceElection.Run` does not model the list's `maxRounds` capacity hint as a size bound: capacity does not limit how many rounds a `List` holds. Only its failure for a negative value, with no candidates, is modelled.
- `Program.cs` (console output, timing, ballot factories) is not part of this model. Neither are the interface files, which are type shapes here, nor `Constants.cs`: its `FirstRound = 0` is written inline and `MaxVoters` is unused by the core.
- `TiedRankedElectionException` is never thrown by the core and has no counterpart.
- Vote counts are unbounded integers. C#'s checked overflow in `Sum` and the 32-bit range of `int` are not modelled.
- LINQ's deferred execution and `ToList` copying are not modelled; every pipeline is computed as a value.
- `Tallies.TallyValidVotes`: duplicate-free rows and the sum of counts are stated only for a duplicate-free valid-candidate list. With duplicates, the inner join repeats a row once per copy, and the model does that too.
- `RankedChoiceRound.Round.RemainingCandidates`: the length, non-increasing-order and tie-order clauses are stated only for tallies whose candidates are distinct. With repeated candidates, `Except` keeps the first occurrence only, and the model does that too.
- `RankedChoiceRound.HasMajorityVote` truncates toward zero, as C#'s `/` does on `int`, rather than using floor division. The two differ only for negative totals.
