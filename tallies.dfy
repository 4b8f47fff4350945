/**
 * The tally pipelines of Tallies.cs. A single-vote ballot is modelled as the
 * candidate it names. TallyValidVotes groups the ballots by candidate in
 * order of first appearance, counts each group, and inner-joins the counts
 * with the list of valid candidates; SelectPluralityWinner takes the first
 * entry of a stable descending sort by count.
 */
module Tallies {
  import opened Wrappers
  import opened Interfaces
  import opened Linq

  /* ------------------------------------------------------------ helpers */

  lemma PositionAppend<C>(s: seq<C>, c: C, x: C)
    ensures Position(s + [c], x) == if x in s then Position(s, x) else if x == c then |s| else |s| + 1
  {
    var p := Position(s + [c], x);
    if x in s {
      var q := Position(s, x);
      assert (s + [c])[q] == x;
    } else if x == c {
      assert (s + [c])[|s|] == x;
    } else {
      assert x !in s + [c];
    }
  }

  /** The rows of `t` are in the order in which their candidates first appear among `ballots`. */
  predicate InFirstAppearanceOrder<C(==)>(t: seq<Tally<C>>, ballots: seq<C>)
  {
    forall i, j :: 0 <= i < j < |t| ==> Position(ballots, t[i].candidate) <= Position(ballots, t[j].candidate)
  }

  /** The number of ballots that name a candidate of `valid`. */
  function CountValid<C(==)>(ballots: seq<C>, valid: seq<C>): nat
  {
    if ballots == [] then 0
    else CountValid(ballots[..|ballots| - 1], valid) + (if ballots[|ballots| - 1] in valid then 1 else 0)
  }

  /** The total of the rows whose candidate is in `valid`. */
  function SumValid<C(==)>(t: seq<Tally<C>>, valid: seq<C>): int
  {
    if t == [] then 0 else (if t[0].candidate in valid then t[0].votes else 0) + SumValid(t[1..], valid)
  }

  /* ------------------------------------------- GroupBy(...).Select(Count) */

  /** Counts one more ballot for `c`: bumps c's row, or appends a row for c with one vote. */
  function Bump<C(==)>(rows: seq<Tally<C>>, c: C): (r: seq<Tally<C>>)
    ensures |rows| <= |r| <= |rows| + 1
  {
    if rows == [] then [Tally(c, 1)]
    else if rows[0].candidate == c then [Tally(c, rows[0].votes + 1)] + rows[1..]
    else [rows[0]] + Bump(rows[1..], c)
  }

  /**
   * ballots.GroupBy(b => b).Select(g => new CandidateTally(g.Key, g.Count())):
   * one row per distinct candidate, in order of first appearance.
   */
  function GroupAndCount<C(==)>(ballots: seq<C>): (g: seq<Tally<C>>)
    ensures |g| <= |ballots|
  {
    if ballots == [] then []
    else Bump(GroupAndCount(ballots[..|ballots| - 1]), ballots[|ballots| - 1])
  }

  lemma {:induction false} BumpFacts<C>(rows: seq<Tally<C>>, c: C)
    requires DistinctCandidates(rows)
    ensures c in Candidates(rows) ==>
      && |Bump(rows, c)| == |rows|
      && forall i :: 0 <= i < |rows| ==>
           Bump(rows, c)[i].candidate == rows[i].candidate
           && Bump(rows, c)[i].votes == rows[i].votes + (if rows[i].candidate == c then 1 else 0)
    ensures c !in Candidates(rows) ==> Bump(rows, c) == rows + [Tally(c, 1)]
  {
    if rows != [] {
      assert Candidates(rows)[0] == rows[0].candidate;
      if rows[0].candidate == c {
        forall i | 1 <= i < |rows| ensures rows[i].candidate != c { }
      } else {
        assert Candidates(rows) == [rows[0].candidate] + Candidates(rows[1..]);
        BumpFacts(rows[1..], c);
        if c !in Candidates(rows) {
          assert rows == [rows[0]] + rows[1..];
        }
      }
    }
  }

  lemma {:induction false} BumpSumValid<C>(rows: seq<Tally<C>>, c: C, valid: seq<C>)
    ensures SumValid(Bump(rows, c), valid) == SumValid(rows, valid) + (if c in valid then 1 else 0)
  {
    if rows != [] && rows[0].candidate != c {
      BumpSumValid(rows[1..], c, valid);
    } else if rows != [] {
      assert ([Tally(c, rows[0].votes + 1)] + rows[1..])[1..] == rows[1..];
    }
  }

  /** GroupBy + Count: distinct rows, each counting the ballots that name its candidate. */
  lemma {:induction false} GroupAndCountRows<C>(ballots: seq<C>)
    ensures var g := GroupAndCount(ballots);
      && DistinctCandidates(g)
      && (forall i :: 0 <= i < |g| ==> g[i].votes == multiset(ballots)[g[i].candidate] && g[i].candidate in ballots)
    decreases |ballots|
  {
    if ballots != [] {
      var b := ballots[..|ballots| - 1];
      var c := ballots[|ballots| - 1];
      assert ballots == b + [c];
      var g0 := GroupAndCount(b);
      GroupAndCountRows(b);
      BumpFacts(g0, c);
      assert multiset(ballots) == multiset(b) + multiset{c};
      if c !in Candidates(g0) {
        GroupAndCountCovers(b, c);
        forall i | 0 <= i < |g0| ensures g0[i].candidate != c {
          assert Candidates(g0)[i] == g0[i].candidate;
        }
      }
    }
  }

  /** GroupBy + Count: every candidate named by a ballot has a row. */
  lemma {:induction false} GroupAndCountCovers<C>(ballots: seq<C>, x: C)
    ensures x in ballots ==> x in Candidates(GroupAndCount(ballots))
    decreases |ballots|
  {
    if x !in ballots {
      return;
    }
    var b := ballots[..|ballots| - 1];
    var c := ballots[|ballots| - 1];
    assert ballots == b + [c];
    var g0 := GroupAndCount(b);
    var g := GroupAndCount(ballots);
    GroupAndCountRows(b);
    BumpFacts(g0, c);
    if c in Candidates(g0) {
      if x != c {
        GroupAndCountCovers(b, x);
      }
      var k :| 0 <= k < |g0| && Candidates(g0)[k] == x;
      assert Candidates(g)[k] == x;
    } else {
      assert Candidates(g) == Candidates(g0) + [c];
      if x != c {
        GroupAndCountCovers(b, x);
      }
    }
  }

  /** GroupBy + Count: rows come in order of their candidates' first ballots. */
  lemma {:induction false} GroupAndCountOrder<C>(ballots: seq<C>)
    ensures var g := GroupAndCount(ballots);
      forall i, j :: 0 <= i < j < |g| ==> Position(ballots, g[i].candidate) < Position(ballots, g[j].candidate)
  {
    if ballots != [] {
      var b := ballots[..|ballots| - 1];
      var c := ballots[|ballots| - 1];
      assert ballots == b + [c];
      var g0 := GroupAndCount(b);
      var g := GroupAndCount(ballots);
      GroupAndCountRows(b);
      GroupAndCountOrder(b);
      BumpFacts(g0, c);
      forall i | 0 <= i < |g0| ensures Position(ballots, g0[i].candidate) == Position(b, g0[i].candidate) < |b| {
        PositionAppend(b, c, g0[i].candidate);
      }
      if c in Candidates(g0) {
        SameCandidatesKeepOrder(ballots, g0, g);
      } else {
        PositionAppend(b, c, c);
        GroupAndCountCovers(b, c);
        AppendedRowKeepsOrder(ballots, g0, Tally(c, 1));
      }
    }
  }

  /** Rows naming the same candidates, position by position, are in the same first-ballot order. */
  lemma SameCandidatesKeepOrder<C>(ballots: seq<C>, t: seq<Tally<C>>, u: seq<Tally<C>>)
    requires |u| == |t| && forall i :: 0 <= i < |t| ==> u[i].candidate == t[i].candidate
    requires forall i, j :: 0 <= i < j < |t| ==> Position(ballots, t[i].candidate) < Position(ballots, t[j].candidate)
    ensures forall i, j :: 0 <= i < j < |u| ==> Position(ballots, u[i].candidate) < Position(ballots, u[j].candidate)
  {
    forall i, j | 0 <= i < j < |u| ensures Position(ballots, u[i].candidate) < Position(ballots, u[j].candidate) {
      assert u[i].candidate == t[i].candidate && u[j].candidate == t[j].candidate;
    }
  }

  /** A row whose candidate first appears after those of the ordered rows `t` may be appended. */
  lemma AppendedRowKeepsOrder<C>(ballots: seq<C>, t: seq<Tally<C>>, x: Tally<C>)
    requires forall i, j :: 0 <= i < j < |t| ==> Position(ballots, t[i].candidate) < Position(ballots, t[j].candidate)
    requires forall i :: 0 <= i < |t| ==> Position(ballots, t[i].candidate) < Position(ballots, x.candidate)
    ensures var u := t + [x];
      forall i, j :: 0 <= i < j < |u| ==> Position(ballots, u[i].candidate) < Position(ballots, u[j].candidate)
  {
    var u := t + [x];
    forall i, j | 0 <= i < j < |u| ensures Position(ballots, u[i].candidate) < Position(ballots, u[j].candidate) {
      assert u[i] == t[i];
      if j < |t| {
        assert u[j] == t[j];
      } else {
        assert u[j] == x;
      }
    }
  }

  lemma {:induction false} GroupAndCountSumValid<C>(ballots: seq<C>, valid: seq<C>)
    ensures SumValid(GroupAndCount(ballots), valid) == CountValid(ballots, valid)
  {
    if ballots != [] {
      var b := ballots[..|ballots| - 1];
      GroupAndCountSumValid(b, valid);
      BumpSumValid(GroupAndCount(b), ballots[|ballots| - 1], valid);
    }
  }

  /* ------------------------------------------------ ForSpecificCandidates */

  /**
   * tallies.Join(validCandidates, t => t.Candidate, c => c, (t, c) => t): in the
   * order of the tallies, each tally once for every occurrence of its candidate
   * among the valid candidates.
   */
  function ForSpecificCandidates<C(==)>(tallies: seq<Tally<C>>, validCandidates: seq<C>): (r: seq<Tally<C>>)
    ensures forall i :: 0 <= i < |r| ==> r[i] in tallies && r[i].candidate in validCandidates
  {
    if tallies == [] then []
    else
      seq(multiset(validCandidates)[tallies[0].candidate], _ => tallies[0])
        + ForSpecificCandidates(tallies[1..], validCandidates)
  }

  lemma {:induction false} JoinMember<C>(t: seq<Tally<C>>, valid: seq<C>, x: Tally<C>)
    ensures x in ForSpecificCandidates(t, valid) <==> x in t && x.candidate in valid
  {
    if t != [] {
      var r := seq(multiset(valid)[t[0].candidate], _ => t[0]);
      JoinMember(t[1..], valid, x);
      assert ForSpecificCandidates(t, valid) == r + ForSpecificCandidates(t[1..], valid);
      assert t == [t[0]] + t[1..];
      if x == t[0] && x.candidate in valid {
        assert r[0] == x;
      }
    }
  }

  lemma {:induction false} JoinKeepsOrder<C>(t: seq<Tally<C>>, valid: seq<C>, ballots: seq<C>)
    requires forall i, j :: 0 <= i < j < |t| ==> Position(ballots, t[i].candidate) < Position(ballots, t[j].candidate)
    ensures InFirstAppearanceOrder(ForSpecificCandidates(t, valid), ballots)
  {
    if t != [] {
      var r := seq(multiset(valid)[t[0].candidate], _ => t[0]);
      var rest := ForSpecificCandidates(t[1..], valid);
      var o := ForSpecificCandidates(t, valid);
      assert o == r + rest;
      JoinKeepsOrder(t[1..], valid, ballots);
      forall k | 0 <= k < |rest| ensures Position(ballots, t[0].candidate) < Position(ballots, rest[k].candidate) {
        JoinMember(t[1..], valid, rest[k]);
        var p :| 0 <= p < |t[1..]| && t[1..][p] == rest[k];
        assert t[p + 1] == rest[k];
      }
      forall i, j | 0 <= i < j < |o| ensures Position(ballots, o[i].candidate) <= Position(ballots, o[j].candidate) {
        if j < |r| {
        } else if i < |r| {
          assert o[j] == rest[j - |r|];
        } else {
          assert o[i] == rest[i - |r|] && o[j] == rest[j - |r|];
        }
      }
    }
  }

  /** Each candidate occurs at most once in a duplicate-free sequence. */
  lemma {:induction false} DistinctMultiplicity<C>(s: seq<C>, c: C)
    requires Distinct(s)
    ensures multiset(s)[c] == if c in s then 1 else 0
  {
    if s != [] {
      assert s == [s[0]] + s[1..];
      assert multiset(s) == multiset{s[0]} + multiset(s[1..]);
      DistinctMultiplicity(s[1..], c);
    }
  }

  lemma {:induction false} JoinDistinct<C>(t: seq<Tally<C>>, valid: seq<C>)
    requires DistinctCandidates(t) && Distinct(valid)
    ensures DistinctCandidates(ForSpecificCandidates(t, valid))
    ensures SumVotes(ForSpecificCandidates(t, valid)) == SumValid(t, valid)
  {
    if t != [] {
      var r := seq(multiset(valid)[t[0].candidate], _ => t[0]);
      var rest := ForSpecificCandidates(t[1..], valid);
      var o := ForSpecificCandidates(t, valid);
      assert o == r + rest;
      DistinctMultiplicity(valid, t[0].candidate);
      JoinDistinct(t[1..], valid);
      SumVotesAppend(r, rest);
      if t[0].candidate in valid {
        assert r == [t[0]];
        forall k | 0 <= k < |rest| ensures rest[k].candidate != t[0].candidate {
          JoinMember(t[1..], valid, rest[k]);
          var p :| 0 <= p < |t[1..]| && t[1..][p] == rest[k];
          assert t[p + 1] == rest[k];
        }
        assert o == [t[0]] + rest;
      } else {
        assert r == [];
        assert o == rest;
      }
    }
  }

  /* ------------------------------------------------------ TallyValidVotes */

  /**
   * TallyValidVotes(ballots, validCandidates): for each valid candidate named by
   * at least one ballot, a row holding the number of ballots naming it.
   */
  function TallyValidVotes<C(==)>(ballots: seq<C>, validCandidates: seq<C>): (r: seq<Tally<C>>)
    ensures forall i :: 0 <= i < |r| ==>
      && r[i].votes == multiset(ballots)[r[i].candidate]
      && r[i].votes >= 1
      && r[i].candidate in validCandidates
    ensures forall c :: c in Candidates(r) ==> c in ballots
    ensures forall k :: 0 <= k < |ballots| && ballots[k] in validCandidates ==> ballots[k] in Candidates(r)
    ensures InFirstAppearanceOrder(r, ballots)
    ensures Distinct(validCandidates) ==> DistinctCandidates(r)
    ensures Distinct(validCandidates) ==> SumVotes(r) == CountValid(ballots, validCandidates)
  {
    var g := GroupAndCount(ballots);
    TallyValidRows(ballots, validCandidates);
    TallyValidCovers(ballots, validCandidates);
    GroupAndCountOrder(ballots);
    JoinKeepsOrder(g, validCandidates, ballots);
    if Distinct(validCandidates) then
      JoinDistinct(g, validCandidates);
      GroupAndCountSumValid(ballots, validCandidates);
      ForSpecificCandidates(g, validCandidates)
    else
      ForSpecificCandidates(g, validCandidates)
  }

  /** Every joined row counts the ballots naming its candidate, who is valid and on some ballot. */
  lemma TallyValidRows<C>(ballots: seq<C>, valid: seq<C>)
    ensures var r := ForSpecificCandidates(GroupAndCount(ballots), valid);
      && (forall i :: 0 <= i < |r| ==>
            && r[i].votes == multiset(ballots)[r[i].candidate]
            && r[i].votes >= 1
            && r[i].candidate in valid)
      && (forall c :: c in Candidates(r) ==> c in ballots)
  {
    var g := GroupAndCount(ballots);
    var r := ForSpecificCandidates(g, valid);
    GroupAndCountRows(ballots);
    forall i | 0 <= i < |r|
      ensures r[i].votes == multiset(ballots)[r[i].candidate] && r[i].votes >= 1 && r[i].candidate in valid
    {
      JoinMember(g, valid, r[i]);
      var k :| 0 <= k < |g| && g[k] == r[i];
      assert Candidates(g)[k] == r[i].candidate;
    }
    forall c | c in Candidates(r) ensures c in ballots {
      var i :| 0 <= i < |r| && Candidates(r)[i] == c;
      JoinMember(g, valid, r[i]);
      var k :| 0 <= k < |g| && g[k] == r[i];
      assert Candidates(g)[k] == c;
    }
  }

  /** Every valid candidate named by a ballot has a joined row. */
  lemma TallyValidCovers<C>(ballots: seq<C>, valid: seq<C>)
    ensures var r := ForSpecificCandidates(GroupAndCount(ballots), valid);
      forall k :: 0 <= k < |ballots| && ballots[k] in valid ==> ballots[k] in Candidates(r)
  {
    var g := GroupAndCount(ballots);
    var r := ForSpecificCandidates(g, valid);
    forall n | 0 <= n < |ballots| && ballots[n] in valid ensures ballots[n] in Candidates(r) {
      var c := ballots[n];
      GroupAndCountCovers(ballots, c);
      var k :| 0 <= k < |g| && Candidates(g)[k] == c;
      JoinMember(g, valid, g[k]);
      var i :| 0 <= i < |r| && r[i] == g[k];
      assert Candidates(r)[i] == c;
    }
  }

  /* ------------------------------------------------ SelectPluralityWinner */

  /**
   * tallies.OrderByDescending(t => t.Votes).First().Candidate: the candidate of
   * the earliest tally with the most votes; First() throws on no tallies.
   */
  function SelectPluralityWinner<C(==)>(tallies: seq<Tally<C>>): (w: Result<C, ElectionError>)
    ensures w.Failure? <==> |tallies| == 0
    ensures w.Failure? ==> w.error == NoTallies
    ensures w.Success? ==>
      exists i :: 0 <= i < |tallies| && tallies[i].candidate == w.value
        && (forall j :: 0 <= j < |tallies| ==> tallies[j].votes <= tallies[i].votes)
        && (forall j :: 0 <= j < i ==> tallies[j].votes < tallies[i].votes)
  {
    if tallies == [] then Failure(NoTallies)
    else
      SortByVotesHead(tallies, Descending);
      var i := FirstExtreme(tallies, Descending);
      assert tallies[i] == OrderByVotesDescending(tallies)[0];
      Success(OrderByVotesDescending(tallies)[0].candidate)
  }
}
