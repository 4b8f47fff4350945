/**
 * The shapes the election core works with: a candidate is any equality type,
 * a single-vote ballot is the candidate it names, and a tally (ITally) pairs a
 * candidate with a vote count.
 */
module Interfaces {

  /** One candidate's vote count in one round (ITally). */
  datatype Tally<C> = Tally(candidate: C, votes: int)

  /** The ways an election run fails. */
  datatype ElectionError =
    | NoTallies               // First() over an empty tally sequence
    | NoMajorityWithinRounds  // the ranked-choice round loop ran out of rounds
    | CapacityOutOfRange      // a list created with a negative capacity (no candidates)

  /** The candidates of a tally sequence, in order (Select(t => t.Candidate)). */
  function Candidates<C>(t: seq<Tally<C>>): seq<C>
  {
    seq(|t|, i requires 0 <= i < |t| => t[i].candidate)
  }

  predicate Distinct<C(==)>(s: seq<C>)
  {
    forall i, j :: 0 <= i < j < |s| ==> s[i] != s[j]
  }

  /** No two tallies name the same candidate. */
  predicate DistinctCandidates<C(==)>(t: seq<Tally<C>>)
  {
    forall i, j :: 0 <= i < j < |t| ==> t[i].candidate != t[j].candidate
  }

  predicate NonNegative<C>(t: seq<Tally<C>>)
  {
    forall i :: 0 <= i < |t| ==> t[i].votes >= 0
  }

  /** The index of the first occurrence of `x` in `s`, or |s| when there is none. */
  function Position<C(==)>(s: seq<C>, x: C): (i: nat)
    ensures i <= |s|
    ensures i < |s| <==> x in s
    ensures i < |s| ==> s[i] == x
    ensures forall j :: 0 <= j < i ==> s[j] != x
  {
    if s == [] then 0 else if s[0] == x then 0 else 1 + Position(s[1..], x)
  }
}
