/** The ranking behind the leaderboard (Go's `Sort` and `Tuple`): the entries
    of a handle-to-count map ordered by count, highest first, with ties broken
    by handle in ascending string order. */
module Ranking {
  import opened GoStrings

  /** One ranked entry: a participant's handle and their count. */
  datatype Tuple = Tuple(user: string, pr: int)

  /** The less function passed to `sort.Slice`: `a` sorts before `b`. */
  predicate Before(a: Tuple, b: Tuple)
  {
    a.pr > b.pr || (a.pr == b.pr && Less(a.user, b.user))
  }

  lemma BeforeIrreflexive(a: Tuple)
    ensures !Before(a, a)
  {
    LessIrreflexive(a.user);
  }

  lemma BeforeAsymmetric(a: Tuple, b: Tuple)
    ensures Before(a, b) ==> !Before(b, a)
  {
    LessAsymmetric(a.user, b.user);
  }

  lemma BeforeTransitive(a: Tuple, b: Tuple, c: Tuple)
    requires Before(a, b) && Before(b, c)
    ensures Before(a, c)
  {
    if a.pr == b.pr == c.pr {
      LessTransitive(a.user, b.user, c.user);
    }
  }

  /** Entries of different handles are always ordered one way or the other,
      so the comparator is a strict total order on the entries of a map. */
  lemma BeforeTotal(a: Tuple, b: Tuple)
    requires a.user != b.user
    ensures Before(a, b) || Before(b, a)
  {
    LessTotal(a.user, b.user);
  }

  /** Every entry sorts strictly before the next one. */
  predicate Ordered(r: seq<Tuple>)
  {
    forall i :: 0 < i < |r| ==> Before(r[i - 1], r[i])
  }

  /** `r` holds exactly the entries of `p`, each once. */
  predicate Lists(r: seq<Tuple>, p: map<string, int>)
  {
    && |r| == |p|
    && (forall i :: 0 <= i < |r| ==> r[i].user in p && p[r[i].user] == r[i].pr)
    && (forall u :: u in p ==> exists i :: 0 <= i < |r| && r[i].user == u)
  }

  /** `r` is a ranking of `p`: its entries, in comparator order. */
  predicate Ranks(r: seq<Tuple>, p: map<string, int>)
  {
    Lists(r, p) && Ordered(r)
  }

  /** In an ordered sequence every entry sorts before every later one. */
  lemma {:induction false} OrderedPairwise(r: seq<Tuple>, i: int, j: int)
    requires Ordered(r)
    requires 0 <= i < j < |r|
    ensures Before(r[i], r[j])
    decreases j - i
  {
    if i + 1 < j {
      OrderedPairwise(r, i + 1, j);
      BeforeTransitive(r[i], r[i + 1], r[j]);
    }
  }

  /** The entry of `k` sorts before the entry of every other key of `p`. */
  predicate IsFirst(k: string, p: map<string, int>)
  {
    k in p && forall j :: j in p && j != k ==> Before(Tuple(k, p[k]), Tuple(j, p[j]))
  }

  lemma {:induction false} FirstExists(p: map<string, int>)
    requires |p| > 0
    ensures exists k :: IsFirst(k, p)
    decreases |p|
  {
    var x :| x in p;
    var rest := p - {x};
    assert |rest| == |p| - 1;
    if |rest| == 0 {
      assert forall j :: j in p ==> j == x;
      assert IsFirst(x, p);
    } else {
      FirstExists(rest);
      var k :| IsFirst(k, rest);
      var tx, tk := Tuple(x, p[x]), Tuple(k, p[k]);
      assert tk == Tuple(k, rest[k]);
      BeforeTotal(tx, tk);
      if Before(tx, tk) {
        forall j | j in p && j != x
          ensures Before(tx, Tuple(j, p[j]))
        {
          if j != k {
            assert j in rest && rest[j] == p[j];
            BeforeTransitive(tx, tk, Tuple(j, p[j]));
          }
        }
        assert IsFirst(x, p);
      } else {
        forall j | j in p && j != k
          ensures Before(tk, Tuple(j, p[j]))
        {
          if j != x {
            assert j in rest && rest[j] == p[j];
          }
        }
        assert IsFirst(k, p);
      }
    }
  }

  lemma FirstUnique(p: map<string, int>)
    ensures forall k, k' :: IsFirst(k, p) && IsFirst(k', p) ==> k == k'
  {
    forall k, k' | IsFirst(k, p) && IsFirst(k', p)
      ensures k == k'
    {
      BeforeAsymmetric(Tuple(k, p[k]), Tuple(k', p[k']));
    }
  }

  /** Go's `Sort`: the entries of `p`, each once, highest count first and
      equal counts by ascending handle. */
  function Sort(p: map<string, int>): (r: seq<Tuple>)
    ensures Ranks(r, p)
    decreases |p|
  {
    if |p| == 0 then []
    else
      FirstExists(p);
      FirstUnique(p);
      var k :| IsFirst(k, p);
      var rest := p - {k};
      assert |rest| == |p| - 1;
      var tail := Sort(rest);
      ConsRanks(k, p, tail);
      [Tuple(k, p[k])] + tail
  }

  /** Putting the first entry of `p` in front of a ranking of the rest of
      `p` ranks `p`. */
  lemma ConsRanks(k: string, p: map<string, int>, tail: seq<Tuple>)
    requires IsFirst(k, p)
    requires Ranks(tail, p - {k})
    ensures Ranks([Tuple(k, p[k])] + tail, p)
  {
    var rest := p - {k};
    var r := [Tuple(k, p[k])] + tail;
    assert |rest| == |p| - 1;
    forall i | 0 < i < |r|
      ensures r[i] == tail[i - 1] && r[i].user in rest
    {
    }
    forall i | 0 < i < |r|
      ensures Before(r[i - 1], r[i])
    {
      if i == 1 {
        assert rest[r[1].user] == p[r[1].user];
      }
    }
    forall u | u in p
      ensures exists i :: 0 <= i < |r| && r[i].user == u
    {
      if u == k {
        assert r[0].user == u;
      } else {
        assert u in rest;
        var i :| 0 <= i < |tail| && tail[i].user == u;
        assert r[i + 1].user == u;
      }
    }
  }

  /** The first entry of a ranking is the first entry of its map. */
  lemma HeadIsFirst(r: seq<Tuple>, p: map<string, int>)
    requires Ranks(r, p) && |r| > 0
    ensures IsFirst(r[0].user, p)
  {
    forall j | j in p && j != r[0].user
      ensures Before(r[0], Tuple(j, p[j]))
    {
      var i :| 0 <= i < |r| && r[i].user == j;
      OrderedPairwise(r, 0, i);
    }
  }

  /** A map has exactly one ranking: whatever order `range` visits the map
      in, sorting with this comparator gives the same sequence. */
  lemma {:induction false} RankingUnique(a: seq<Tuple>, b: seq<Tuple>, p: map<string, int>)
    requires Ranks(a, p) && Ranks(b, p)
    ensures a == b
    decreases |p|
  {
    if |p| > 0 {
      HeadIsFirst(a, p);
      HeadIsFirst(b, p);
      FirstUnique(p);
      var k := a[0].user;
      var rest := p - {k};
      TailRanks(a, p);
      TailRanks(b, p);
      RankingUnique(a[1..], b[1..], rest);
      assert a == [a[0]] + a[1..] && b == [b[0]] + b[1..];
    }
  }

  /** Dropping the head of a ranking ranks the map without the head's key. */
  lemma TailRanks(r: seq<Tuple>, p: map<string, int>)
    requires Ranks(r, p) && |r| > 0
    ensures Ranks(r[1..], p - {r[0].user})
  {
    var rest := p - {r[0].user};
    assert |rest| == |p| - 1;
    HeadOnce(r, p);
    forall u | u in rest
      ensures exists i :: 0 <= i < |r[1..]| && r[1..][i].user == u
    {
      var i :| 0 <= i < |r| && r[i].user == u;
      assert i > 0 && r[1..][i - 1].user == u;
    }
  }

  /** The head's handle does not appear again in a ranking. */
  lemma HeadOnce(r: seq<Tuple>, p: map<string, int>)
    requires Ranks(r, p) && |r| > 0
    ensures forall i :: 0 < i < |r| ==> r[i].user != r[0].user
  {
    forall i | 0 < i < |r|
      ensures r[i].user != r[0].user
    {
      OrderedPairwise(r, 0, i);
      if r[i].user == r[0].user {
        assert r[i] == r[0];
        BeforeIrreflexive(r[0]);
      }
    }
  }

  /** Any ranking of `p` is the one `Sort` returns. */
  lemma SortUnique(r: seq<Tuple>, p: map<string, int>)
    requires Ranks(r, p)
    ensures Sort(p) == r
  {
    RankingUnique(Sort(p), r, p);
  }

  /** The handle-to-count map a sequence of entries describes; a later entry
      for the same handle would win, as with repeated map assignments. */
  function Tally(r: seq<Tuple>): map<string, int>
    decreases |r|
  {
    if |r| == 0 then map[] else Tally(r[..|r| - 1])[r[|r| - 1].user := r[|r| - 1].pr]
  }

  /** No handle appears twice. */
  predicate Distinct(r: seq<Tuple>)
  {
    forall i, j :: 0 <= i < j < |r| ==> r[i].user != r[j].user
  }

  /** A sequence without repeated handles lists the entries of the map it
      describes. */
  lemma {:induction false} TallyLists(r: seq<Tuple>)
    requires Distinct(r)
    ensures Lists(r, Tally(r))
    decreases |r|
  {
    if |r| > 0 {
      var init := r[..|r| - 1];
      assert Distinct(init) by {
        forall i, j | 0 <= i < j < |init|
          ensures init[i].user != init[j].user
        {
          assert init[i] == r[i] && init[j] == r[j];
        }
      }
      forall i | 0 <= i < |init|
        ensures init[i].user != r[|r| - 1].user
      {
        assert init[i] == r[i];
      }
      TallyLists(init);
      TallySnoc(r, init);
    }
  }

  /** Extending a sequence that lists its map by an entry with a new handle
      lists the map extended by that entry. */
  lemma TallySnoc(r: seq<Tuple>, init: seq<Tuple>)
    requires |r| > 0 && init == r[..|r| - 1]
    requires Lists(init, Tally(init))
    requires forall i :: 0 <= i < |init| ==> init[i].user != r[|r| - 1].user
    ensures Lists(r, Tally(r))
  {
    var last := r[|r| - 1];
    var t0 := Tally(init);
    assert Tally(r) == t0[last.user := last.pr];
    assert last.user !in t0;
    SnocEntries(r, init, t0);
    SnocCovers(r, init, t0);
  }

  /** Every entry of the sequence is in the map extended by its last entry. */
  lemma SnocEntries(r: seq<Tuple>, init: seq<Tuple>, t0: map<string, int>)
    requires |r| > 0 && init == r[..|r| - 1]
    requires forall i :: 0 <= i < |init| ==> init[i].user in t0 && t0[init[i].user] == init[i].pr
    requires forall i :: 0 <= i < |init| ==> init[i].user != r[|r| - 1].user
    ensures var last := r[|r| - 1];
      var t := t0[last.user := last.pr];
      forall i :: 0 <= i < |r| ==> r[i].user in t && t[r[i].user] == r[i].pr
  {
    var last := r[|r| - 1];
    var t := t0[last.user := last.pr];
    forall i | 0 <= i < |r|
      ensures r[i].user in t && t[r[i].user] == r[i].pr
    {
      if i < |r| - 1 {
        assert r[i] == init[i];
      }
    }
  }

  /** Every key of the map extended by the last entry has an entry in the
      sequence, and the map has grown by one key. */
  lemma SnocCovers(r: seq<Tuple>, init: seq<Tuple>, t0: map<string, int>)
    requires |r| > 0 && init == r[..|r| - 1]
    requires |init| == |t0|
    requires forall u :: u in t0 ==> exists i :: 0 <= i < |init| && init[i].user == u
    requires r[|r| - 1].user !in t0
    ensures var last := r[|r| - 1];
      var t := t0[last.user := last.pr];
      |r| == |t| && forall u :: u in t ==> exists i :: 0 <= i < |r| && r[i].user == u
  {
    var last := r[|r| - 1];
    var t := t0[last.user := last.pr];
    assert |t| == |t0| + 1;
    forall u | u in t
      ensures exists i :: 0 <= i < |r| && r[i].user == u
    {
      if u == last.user {
        assert r[|r| - 1].user == u;
      } else {
        assert u in t0;
        var i :| 0 <= i < |init| && init[i].user == u;
        assert r[i].user == u;
      }
    }
  }

  /** A sequence lists the entries of at most one map. */
  lemma ListsDetermineMap(r: seq<Tuple>, p: map<string, int>, q: map<string, int>)
    requires Lists(r, p) && Lists(r, q)
    ensures p == q
  {
    forall u | u in p
      ensures u in q && q[u] == p[u]
    {
      var i :| 0 <= i < |r| && r[i].user == u;
    }
    forall u | u in q
      ensures u in p
    {
      var i :| 0 <= i < |r| && r[i].user == u;
    }
  }

  /** A ranking never repeats a handle. */
  lemma RanksDistinct(r: seq<Tuple>, p: map<string, int>)
    requires Ranks(r, p)
    ensures Distinct(r)
  {
    forall i, j | 0 <= i < j < |r|
      ensures r[i].user != r[j].user
    {
      OrderedPairwise(r, i, j);
      if r[i].user == r[j].user {
        assert r[i] == r[j];
        BeforeIrreflexive(r[i]);
      }
    }
  }

  /** Sorting the entries of an already sorted leaderboard gives it back. */
  lemma SortOrdered(r: seq<Tuple>)
    requires Ordered(r) && Distinct(r)
    ensures Sort(Tally(r)) == r
  {
    TallyLists(r);
    SortUnique(r, Tally(r));
  }

  /** The ranking describes exactly the map it was built from, so sorting is
      idempotent. */
  lemma SortIdempotent(p: map<string, int>)
    ensures Tally(Sort(p)) == p
    ensures Sort(Tally(Sort(p))) == Sort(p)
  {
    var r := Sort(p);
    RanksDistinct(r, p);
    TallyLists(r);
    ListsDetermineMap(r, Tally(r), p);
    SortOrdered(r);
  }

  /** Equal counts are listed by ascending handle. */
  lemma SortBreaksTies()
    ensures Sort(map["bob" := 2, "alice" := 2]) == [Tuple("alice", 2), Tuple("bob", 2)]
  {
    var p := map["bob" := 2, "alice" := 2];
    var r := [Tuple("alice", 2), Tuple("bob", 2)];
    assert p.Keys == {"alice", "bob"};
    assert Less("alice", "bob");
    assert Lists(r, p) by {
      assert r[0].user == "alice" && r[1].user == "bob";
    }
    SortUnique(r, p);
  }

  /** Higher counts come first. */
  lemma SortHighestFirst()
    ensures Sort(map["carol" := 3, "dave" := 5]) == [Tuple("dave", 5), Tuple("carol", 3)]
  {
    var p := map["carol" := 3, "dave" := 5];
    var r := [Tuple("dave", 5), Tuple("carol", 3)];
    assert p.Keys == {"carol", "dave"};
    assert Lists(r, p) by {
      assert r[0].user == "dave" && r[1].user == "carol";
    }
    SortUnique(r, p);
  }
}
