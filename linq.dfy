/**
 * The LINQ operators the election core applies to tallies: Sum over the vote
 * counts, the stable sorts OrderBy / OrderByDescending on the vote count, and
 * Except. Each is given a definition of its own and then proved to have the
 * behaviour the framework documents.
 */
module Linq {
  import opened Interfaces

  /* ---------------------------------------------------------------- Sum */

  /** Sum(t => t.Votes), over unbounded integers. */
  function SumVotes<C>(t: seq<Tally<C>>): (sum: int)
    ensures NonNegative(t) ==> sum >= 0
  {
    assert NonNegative(t) && t != [] ==> NonNegative(t[1..]) by {
      if NonNegative(t) && t != [] {
        forall i | 0 <= i < |t[1..]| ensures t[1..][i].votes >= 0 {
          assert t[1..][i] == t[i + 1];
        }
      }
    }
    if t == [] then 0 else t[0].votes + SumVotes(t[1..])
  }

  lemma {:induction false} SumVotesAppend<C>(a: seq<Tally<C>>, b: seq<Tally<C>>)
    ensures SumVotes(a + b) == SumVotes(a) + SumVotes(b)
  {
    if a == [] {
      assert a + b == b;
    } else {
      assert (a + b)[1..] == a[1..] + b;
      SumVotesAppend(a[1..], b);
    }
  }

  /** With no negative counts, no single count exceeds the sum. */
  lemma {:induction false} SumVotesBoundsOne<C>(t: seq<Tally<C>>, i: int)
    requires NonNegative(t) && 0 <= i < |t|
    ensures t[i].votes <= SumVotes(t)
  {
    if i > 0 {
      SumVotesBoundsOne(t[1..], i - 1);
    } else if |t| > 1 {
      SumVotesBoundsOne(t[1..], 0);
    }
  }

  /** With no negative counts, two different entries together do not exceed the sum. */
  lemma {:induction false} SumVotesBoundsTwo<C>(t: seq<Tally<C>>, i: int, j: int)
    requires NonNegative(t) && 0 <= i < |t| && 0 <= j < |t| && i != j
    ensures t[i].votes + t[j].votes <= SumVotes(t)
  {
    if i == 0 {
      SumVotesBoundsOne(t[1..], j - 1);
    } else if j == 0 {
      SumVotesBoundsOne(t[1..], i - 1);
    } else {
      SumVotesBoundsTwo(t[1..], i - 1, j - 1);
    }
  }

  /* ------------------------------------------------- OrderBy(Descending) */

  /** OrderBy sorts by ascending key, OrderByDescending by descending key. */
  datatype Direction = Ascending | Descending

  /** A count `x` may be placed ahead of a count `y` in a sequence sorted in direction `dir`. */
  predicate Before(x: int, y: int, dir: Direction)
  {
    if dir == Ascending then x <= y else x >= y
  }

  predicate Sorted<C>(s: seq<Tally<C>>, dir: Direction)
  {
    forall i, j :: 0 <= i < j < |s| ==> Before(s[i].votes, s[j].votes, dir)
  }

  /** Inserts `x` ahead of the first entry it may precede, so ahead of all its ties. */
  function Insert<C>(x: Tally<C>, s: seq<Tally<C>>, dir: Direction): seq<Tally<C>>
  {
    if s == [] || Before(x.votes, s[0].votes, dir) then [x] + s
    else [s[0]] + Insert(x, s[1..], dir)
  }

  /**
   * A stable sort by vote count: insertion sort that inserts each entry ahead of
   * the equal entries that follow it in the input.
   */
  function SortByVotes<C>(t: seq<Tally<C>>, dir: Direction): seq<Tally<C>>
  {
    if t == [] then [] else Insert(t[0], SortByVotes(t[1..], dir), dir)
  }

  /** OrderBy(t => t.Votes) */
  function OrderByVotes<C>(t: seq<Tally<C>>): (r: seq<Tally<C>>)
    ensures Sorted(r, Ascending) && multiset(r) == multiset(t) && |r| == |t|
    ensures forall v :: WithVotes(r, v) == WithVotes(t, v)
    ensures |t| > 0 ==> r[0] == t[FirstExtreme(t, Ascending)]
  {
    SortByVotesIsStableSort(t, Ascending);
    if |t| > 0 then SortByVotesHead(t, Ascending); SortByVotes(t, Ascending)
    else SortByVotes(t, Ascending)
  }

  /** OrderByDescending(t => t.Votes) */
  function OrderByVotesDescending<C>(t: seq<Tally<C>>): (r: seq<Tally<C>>)
    ensures Sorted(r, Descending) && multiset(r) == multiset(t) && |r| == |t|
    ensures forall v :: WithVotes(r, v) == WithVotes(t, v)
    ensures |t| > 0 ==> r[0] == t[FirstExtreme(t, Descending)]
  {
    SortByVotesIsStableSort(t, Descending);
    if |t| > 0 then SortByVotesHead(t, Descending); SortByVotes(t, Descending)
    else SortByVotes(t, Descending)
  }

  /** The entries of `s` whose count is exactly `v`, in their order in `s`. */
  function WithVotes<C>(s: seq<Tally<C>>, v: int): seq<Tally<C>>
  {
    if s == [] then [] else (if s[0].votes == v then [s[0]] else []) + WithVotes(s[1..], v)
  }

  lemma {:induction false} WithVotesCons<C>(x: Tally<C>, s: seq<Tally<C>>, v: int)
    ensures WithVotes([x] + s, v) == (if x.votes == v then [x] else []) + WithVotes(s, v)
  {
    assert ([x] + s)[1..] == s;
  }

  lemma {:induction false} InsertPermutes<C>(x: Tally<C>, s: seq<Tally<C>>, dir: Direction)
    ensures multiset(Insert(x, s, dir)) == multiset([x] + s)
    ensures |Insert(x, s, dir)| == |s| + 1
    ensures Insert(x, s, dir)[0] == if s == [] || Before(x.votes, s[0].votes, dir) then x else s[0]
  {
    if !(s == [] || Before(x.votes, s[0].votes, dir)) {
      InsertPermutes(x, s[1..], dir);
      assert s == [s[0]] + s[1..];
    }
  }

  lemma {:induction false} InsertSorted<C>(x: Tally<C>, s: seq<Tally<C>>, dir: Direction)
    requires Sorted(s, dir)
    ensures Sorted(Insert(x, s, dir), dir)
  {
    if !(s == [] || Before(x.votes, s[0].votes, dir)) {
      var rest := Insert(x, s[1..], dir);
      assert Sorted(s[1..], dir);
      InsertSorted(x, s[1..], dir);
      InsertPermutes(x, s[1..], dir);
      forall k | 0 <= k < |rest| ensures Before(s[0].votes, rest[k].votes, dir) {
        assert rest[k] in multiset([x] + s[1..]);
        if rest[k] != x {
          assert rest[k] in s[1..];
        }
      }
      ConsSorted(s[0], rest, dir);
    }
  }

  lemma ConsSorted<C>(y: Tally<C>, rest: seq<Tally<C>>, dir: Direction)
    requires Sorted(rest, dir)
    requires forall k :: 0 <= k < |rest| ==> Before(y.votes, rest[k].votes, dir)
    ensures Sorted([y] + rest, dir)
  {
    var t := [y] + rest;
    forall i, j | 0 <= i < j < |t| ensures Before(t[i].votes, t[j].votes, dir) {
      assert t[j] == rest[j - 1];
      if i > 0 {
        assert t[i] == rest[i - 1];
      }
    }
  }

  lemma {:induction false} InsertStable<C>(x: Tally<C>, s: seq<Tally<C>>, dir: Direction, v: int)
    ensures WithVotes(Insert(x, s, dir), v) == WithVotes([x] + s, v)
  {
    if !(s == [] || Before(x.votes, s[0].votes, dir)) {
      var rest := Insert(x, s[1..], dir);
      InsertStable(x, s[1..], dir, v);
      calc {
        WithVotes(Insert(x, s, dir), v);
        { WithVotesCons(s[0], rest, v); }
        (if s[0].votes == v then [s[0]] else []) + WithVotes(rest, v);
        { WithVotesCons(x, s[1..], v); }
        (if s[0].votes == v then [s[0]] else []) + ((if x.votes == v then [x] else []) + WithVotes(s[1..], v));
        // s[0] strictly precedes x, so at most one of the two has count v
        (if x.votes == v then [x] else []) + ((if s[0].votes == v then [s[0]] else []) + WithVotes(s[1..], v));
        { WithVotesCons(s[0], s[1..], v); assert s == [s[0]] + s[1..]; }
        (if x.votes == v then [x] else []) + WithVotes(s, v);
        { WithVotesCons(x, s, v); }
        WithVotes([x] + s, v);
      }
    }
  }

  /**
   * SortByVotes is a stable sort: its output is ordered, is a permutation of the
   * input, and keeps the entries of each count in their input order. These three
   * facts determine the output, so any stable sort by count, and in particular
   * LINQ's, yields the same sequence.
   */
  lemma {:induction false} SortByVotesIsStableSort<C>(t: seq<Tally<C>>, dir: Direction)
    ensures Sorted(SortByVotes(t, dir), dir)
    ensures multiset(SortByVotes(t, dir)) == multiset(t)
    ensures |SortByVotes(t, dir)| == |t|
    ensures forall v :: WithVotes(SortByVotes(t, dir), v) == WithVotes(t, v)
  {
    if t != [] {
      var rest := SortByVotes(t[1..], dir);
      SortByVotesIsStableSort(t[1..], dir);
      InsertPermutes(t[0], rest, dir);
      InsertSorted(t[0], rest, dir);
      assert t == [t[0]] + t[1..];
      forall v ensures WithVotes(SortByVotes(t, dir), v) == WithVotes(t, v) {
        InsertStable(t[0], rest, dir, v);
        WithVotesCons(t[0], rest, v);
        WithVotesCons(t[0], t[1..], v);
      }
    }
  }

  /** Entries of `s` with equal counts come in increasing order of `rank`. */
  predicate TiesOrderedBy<C>(s: seq<Tally<C>>, rank: Tally<C> -> int)
  {
    forall i, j :: 0 <= i < j < |s| && s[i].votes == s[j].votes ==> rank(s[i]) < rank(s[j])
  }

  lemma ConsTieOrder<C>(y: Tally<C>, rest: seq<Tally<C>>, rank: Tally<C> -> int)
    requires TiesOrderedBy(rest, rank)
    requires forall k :: 0 <= k < |rest| && rest[k].votes == y.votes ==> rank(y) < rank(rest[k])
    ensures TiesOrderedBy([y] + rest, rank)
  {
    var r := [y] + rest;
    forall i, j | 0 <= i < j < |r| && r[i].votes == r[j].votes ensures rank(r[i]) < rank(r[j]) {
      assert r[j] == rest[j - 1];
      if i > 0 {
        assert r[i] == rest[i - 1];
      }
    }
  }

  lemma TailTieOrder<C>(s: seq<Tally<C>>, rank: Tally<C> -> int)
    requires TiesOrderedBy(s, rank) && s != []
    ensures TiesOrderedBy(s[1..], rank)
  {
    forall i, j | 0 <= i < j < |s[1..]| && s[1..][i].votes == s[1..][j].votes ensures rank(s[1..][i]) < rank(s[1..][j]) {
      assert s[1..][i] == s[i + 1] && s[1..][j] == s[j + 1];
    }
  }

  /** Inserting an entry ranked below every entry of `s` keeps ties in rank order. */
  lemma {:induction false} InsertKeepsTieOrder<C>(x: Tally<C>, s: seq<Tally<C>>, rank: Tally<C> -> int, dir: Direction)
    requires TiesOrderedBy(s, rank)
    requires forall m :: 0 <= m < |s| ==> rank(x) < rank(s[m])
    ensures TiesOrderedBy(Insert(x, s, dir), rank)
  {
    if s == [] || Before(x.votes, s[0].votes, dir) {
      ConsTieOrder(x, s, rank);
    } else {
      var rest := Insert(x, s[1..], dir);
      TailTieOrder(s, rank);
      InsertKeepsTieOrder(x, s[1..], rank, dir);
      InsertPermutes(x, s[1..], dir);
      forall k | 0 <= k < |rest| && rest[k].votes == s[0].votes ensures rank(s[0]) < rank(rest[k]) {
        assert rest[k] in multiset([x] + s[1..]);
        if rest[k] != x {
          var p :| 0 <= p < |s[1..]| && s[1..][p] == rest[k];
          assert s[p + 1] == rest[k];
        }
      }
      ConsTieOrder(s[0], rest, rank);
    }
  }

  /** Past the first entry of a duplicate-free `t`, positions in `t` are one more than in its tail. */
  lemma TailPositions<C>(t: seq<Tally<C>>, s: seq<Tally<C>>)
    requires Distinct(t) && t != [] && multiset(s) == multiset(t[1..])
    ensures forall m :: 0 <= m < |s| ==> s[m] != t[0] && Position(t, s[m]) == 1 + Position(t[1..], s[m])
  {
    forall m | 0 <= m < |s| ensures s[m] != t[0] && Position(t, s[m]) == 1 + Position(t[1..], s[m]) {
      assert s[m] in multiset(t[1..]);
      var p :| 0 <= p < |t[1..]| && t[1..][p] == s[m];
      assert t[p + 1] == s[m];
    }
  }

  /**
   * The sort keeps ties in input order: of two entries with the same count,
   * the one placed first also comes first in the input.
   */
  lemma {:induction false} SortByVotesKeepsTieOrder<C>(t: seq<Tally<C>>, dir: Direction)
    requires Distinct(t)
    ensures var s := SortByVotes(t, dir);
      forall i, j :: 0 <= i < j < |s| && s[i].votes == s[j].votes ==> Position(t, s[i]) < Position(t, s[j])
  {
    if t != [] {
      var rest := SortByVotes(t[1..], dir);
      assert Distinct(t[1..]) by {
        forall i, j | 0 <= i < j < |t[1..]| ensures t[1..][i] != t[1..][j] {
          assert t[1..][i] == t[i + 1] && t[1..][j] == t[j + 1];
        }
      }
      SortByVotesKeepsTieOrder(t[1..], dir);
      SortByVotesIsStableSort(t[1..], dir);
      TailPositions(t, rest);
      var rank := y => Position(t, y);
      assert TiesOrderedBy(rest, rank) by {
        forall i, j | 0 <= i < j < |rest| && rest[i].votes == rest[j].votes
          ensures rank(rest[i]) < rank(rest[j])
        {
          assert Position(t[1..], rest[i]) < Position(t[1..], rest[j]);
        }
      }
      InsertKeepsTieOrder(t[0], rest, rank, dir);
      var s := SortByVotes(t, dir);
      assert TiesOrderedBy(s, rank);
    }
  }

  /**
   * The index of the earliest entry that may precede every entry: the first
   * minimum (Ascending) or the first maximum (Descending) of the counts.
   */
  function FirstExtreme<C>(t: seq<Tally<C>>, dir: Direction): (i: nat)
    requires |t| > 0
    ensures i < |t|
    ensures forall j :: 0 <= j < |t| ==> Before(t[i].votes, t[j].votes, dir)
    ensures forall j :: 0 <= j < i ==> !Before(t[j].votes, t[i].votes, dir)
  {
    if |t| == 1 then 0
    else
      var m := 1 + FirstExtreme(t[1..], dir);
      if Before(t[0].votes, t[m].votes, dir) then 0 else m
  }

  /** First() of a stable sort is the first minimum (or maximum) in input order. */
  lemma {:induction false} SortByVotesHead<C>(t: seq<Tally<C>>, dir: Direction)
    requires |t| > 0
    ensures |SortByVotes(t, dir)| == |t|
    ensures SortByVotes(t, dir)[0] == t[FirstExtreme(t, dir)]
  {
    SortByVotesIsStableSort(t, dir);
    var rest := SortByVotes(t[1..], dir);
    SortByVotesIsStableSort(t[1..], dir);
    InsertPermutes(t[0], rest, dir);
    if |t| > 1 {
      SortByVotesHead(t[1..], dir);
    }
  }

  /* ------------------------------------------------------------- Except */

  /**
   * Except as LINQ runs it: walk `s`, yielding each element that is not yet in
   * `seen` and adding it to `seen`.
   */
  function ExceptFrom<C>(s: seq<C>, seen: set<C>): seq<C>
  {
    if s == [] then []
    else if s[0] in seen then ExceptFrom(s[1..], seen)
    else [s[0]] + ExceptFrom(s[1..], seen + {s[0]})
  }

  /** The set of the elements of `s`. */
  function Elements<C>(s: seq<C>): set<C>
  {
    set x | x in s
  }

  /** first.Except(second): the distinct elements of `first` not in `second`, in first-occurrence order. */
  function Except<C(==)>(first: seq<C>, second: seq<C>): (r: seq<C>)
    ensures forall i :: 0 <= i < |r| ==> r[i] in first && r[i] !in second
    ensures forall k :: 0 <= k < |first| && first[k] !in second ==> first[k] in r
    ensures Distinct(r)
  {
    ExceptFromFacts(first, Elements(second));
    ExceptYields(first, second);
    ExceptFrom(first, Elements(second))
  }

  lemma {:induction false} ExceptFromFacts<C>(s: seq<C>, seen: set<C>)
    ensures forall x :: x in ExceptFrom(s, seen) <==> x in s && x !in seen
    ensures Distinct(ExceptFrom(s, seen))
  {
    if s != [] {
      if s[0] in seen {
        ExceptFromFacts(s[1..], seen);
      } else {
        ExceptFromFacts(s[1..], seen + {s[0]});
        assert s == [s[0]] + s[1..];
      }
    }
  }

  lemma ExceptFromMember<C>(s: seq<C>, seen: set<C>, x: C)
    ensures x in ExceptFrom(s, seen) <==> x in s && x !in seen
  {
    ExceptFromFacts(s, seen);
  }

  lemma ExceptYields<C>(first: seq<C>, second: seq<C>)
    ensures forall i :: 0 <= i < |ExceptFrom(first, Elements(second))| ==>
      ExceptFrom(first, Elements(second))[i] in first && ExceptFrom(first, Elements(second))[i] !in second
  {
    var r := ExceptFrom(first, Elements(second));
    forall i | 0 <= i < |r| ensures r[i] in first && r[i] !in second {
      ExceptFromMember(first, Elements(second), r[i]);
    }
  }

  /** The number of elements of `s` that lie in `seen`. */
  function CountIn<C>(s: seq<C>, seen: set<C>): nat
  {
    if s == [] then 0 else (if s[0] in seen then 1 else 0) + CountIn(s[1..], seen)
  }

  lemma {:induction false} CountInIgnores<C>(s: seq<C>, seen: set<C>, y: C)
    requires y !in s
    ensures CountIn(s, seen + {y}) == CountIn(s, seen)
  {
    if s != [] {
      CountInIgnores(s[1..], seen, y);
    }
  }

  lemma {:induction false} CountInSingleton<C>(s: seq<C>, x: C)
    requires Distinct(s) && x in s
    ensures CountIn(s, {x}) == 1
  {
    if s[0] == x {
      CountInAbsent(s[1..], {x});
    } else {
      CountInSingleton(s[1..], x);
    }
  }

  lemma {:induction false} CountInAbsent<C>(s: seq<C>, seen: set<C>)
    requires forall x :: x in s ==> x !in seen
    ensures CountIn(s, seen) == 0
  {
    if s != [] {
      CountInAbsent(s[1..], seen);
    }
  }

  /** On a duplicate-free sequence, Except drops exactly the elements that are in `seen`. */
  lemma {:induction false} ExceptFromLength<C>(s: seq<C>, seen: set<C>)
    requires Distinct(s)
    ensures |ExceptFrom(s, seen)| + CountIn(s, seen) == |s|
  {
    if s != [] {
      if s[0] in seen {
        ExceptFromLength(s[1..], seen);
      } else {
        ExceptFromLength(s[1..], seen + {s[0]});
        CountInIgnores(s[1..], seen, s[0]);
      }
    }
  }

  /**
   * Except keeps the relative order of the elements it yields: any relation
   * that holds between every earlier and later element of `s` holds between
   * every earlier and later element of the result.
   */
  lemma {:induction false} ExceptFromKeepsOrder<C>(s: seq<C>, seen: set<C>, before: (C, C) -> bool)
    requires forall i, j :: 0 <= i < j < |s| ==> before(s[i], s[j])
    ensures var r := ExceptFrom(s, seen); forall i, j :: 0 <= i < j < |r| ==> before(r[i], r[j])
  {
    if s != [] {
      var seen' := if s[0] in seen then seen else seen + {s[0]};
      ExceptFromKeepsOrder(s[1..], seen', before);
      var r := ExceptFrom(s[1..], seen');
      forall k | 0 <= k < |r| ensures before(s[0], r[k]) {
        ExceptFromMember(s[1..], seen', r[k]);
        var p :| 0 <= p < |s[1..]| && s[1..][p] == r[k];
        assert s[p + 1] == r[k];
      }
      if s[0] !in seen {
        var out := ExceptFrom(s, seen);
        assert out == [s[0]] + r;
        forall i, j | 0 <= i < j < |out| ensures before(out[i], out[j]) {
          if i > 0 {
            assert out[i] == r[i - 1] && out[j] == r[j - 1];
          } else {
            assert out[j] == r[j - 1];
          }
        }
      }
    }
  }
}
