/** The listing order: most recently updated first, ties broken by the
    larger id first. */
module Ordering {
  import opened Notes

  /** `a` is listed before `b` under `updated_at DESC, id DESC`. */
  predicate Before(a: Note, b: Note)
    ensures Before(a, b) ==> a.updatedAt >= b.updatedAt
    ensures a.updatedAt > b.updatedAt ==> Before(a, b)
    ensures a.updatedAt == b.updatedAt ==> (Before(a, b) <==> a.id > b.id)
    ensures Before(a, b) ==> a != b
  {
    a.updatedAt > b.updatedAt || (a.updatedAt == b.updatedAt && a.id > b.id)
  }

  /** Every earlier element is listed before every later one. Because the
      order is strict, such a sequence holds no element twice. */
  ghost predicate SortedDesc(xs: seq<Note>) {
    forall i, j :: 0 <= i < j < |xs| ==> Before(xs[i], xs[j])
  }

  /** A strictly ordered sequence never holds the same note twice. */
  lemma SortedHasNoRepeats(xs: seq<Note>)
    requires SortedDesc(xs)
    ensures forall a, b :: 0 <= a < b < |xs| ==> xs[a] != xs[b]
  {
  }

  ghost predicate DistinctIds(xs: seq<Note>) {
    forall i, j :: 0 <= i < j < |xs| ==> xs[i].id != xs[j].id
  }

  function Elems(xs: seq<Note>): set<Note> {
    set x | x in xs
  }

  /** The number of notes of `m` listed before `n`: the zero-based position
      `n` takes when `m` is listed in order. */
  ghost function Rank(n: Note, m: set<Note>): nat {
    |set x | x in m && Before(x, n)|
  }

  /** The order is irreflexive, asymmetric and transitive, and it compares
      any two notes with different ids: a strict total order on rows. */
  lemma BeforeIsStrictTotal(a: Note, b: Note, c: Note)
    ensures !Before(a, a)
    ensures Before(a, b) ==> !Before(b, a)
    ensures Before(a, b) && Before(b, c) ==> Before(a, c)
    ensures a.id != b.id ==> Before(a, b) || Before(b, a)
  {
  }

  /** Places `n` in front of the first element it is listed before. */
  function Insert(n: Note, xs: seq<Note>): (r: seq<Note>)
    ensures multiset(r) == multiset(xs) + multiset{n}
    decreases |xs|
  {
    if xs == [] then [n]
    else if Before(n, xs[0]) then [n] + xs
    else
      assert xs == [xs[0]] + xs[1..];
      [xs[0]] + Insert(n, xs[1..])
  }

  /** Insertion sort into listing order. */
  function Sort(xs: seq<Note>): (r: seq<Note>)
    ensures multiset(r) == multiset(xs)
  {
    if xs == [] then []
    else
      assert xs == [xs[0]] + xs[1..];
      Insert(xs[0], Sort(xs[1..]))
  }

  /** Sorting neither adds nor drops notes. */
  lemma SortKeepsElems(xs: seq<Note>)
    ensures Elems(Sort(xs)) == Elems(xs)
  {
    var r := Sort(xs);
    forall x
      ensures x in r <==> x in xs
    {
      assert x in r <==> x in multiset(r);
      assert x in xs <==> x in multiset(xs);
    }
  }

  lemma SortedTail(xs: seq<Note>)
    requires SortedDesc(xs) && xs != []
    ensures SortedDesc(xs[1..])
  {
    forall i, j | 0 <= i < j < |xs[1..]|
      ensures Before(xs[1..][i], xs[1..][j])
    {
      assert xs[1..][i] == xs[i + 1] && xs[1..][j] == xs[j + 1];
    }
  }

  lemma {:induction false} InsertSorted(n: Note, xs: seq<Note>)
    requires SortedDesc(xs)
    requires forall x :: x in xs ==> x.id != n.id
    ensures SortedDesc(Insert(n, xs))
    decreases |xs|
  {
    if xs == [] {
    } else if Before(n, xs[0]) {
      var r := [n] + xs;
      forall i, j | 0 <= i < j < |r|
        ensures Before(r[i], r[j])
      {
        assert r[j] == xs[j - 1];
        if i == 0 {
          assert xs[0] == r[1];
          if j > 1 {
            assert Before(xs[0], xs[j - 1]);
          }
        } else {
          assert r[i] == xs[i - 1];
        }
      }
    } else {
      SortedTail(xs);
      InsertSorted(n, xs[1..]);
      var rest := Insert(n, xs[1..]);
      var r := [xs[0]] + rest;
      assert Before(xs[0], n);
      forall i, j | 0 <= i < j < |r|
        ensures Before(r[i], r[j])
      {
        assert r[j] == rest[j - 1];
        if i == 0 {
          assert r[j] in multiset(rest);
          if r[j] != n {
            assert r[j] in multiset(xs[1..]);
            var k :| 0 <= k < |xs[1..]| && xs[1..][k] == r[j];
            assert xs[k + 1] == r[j];
          }
        } else {
          assert r[i] == rest[i - 1];
        }
      }
    }
  }

  /** Sorting rows with distinct ids yields a strictly ordered sequence. */
  lemma {:induction false} SortSorted(xs: seq<Note>)
    requires DistinctIds(xs)
    ensures SortedDesc(Sort(xs))
  {
    if xs != [] {
      var tail := xs[1..];
      assert DistinctIds(tail) by {
        forall i, j | 0 <= i < j < |tail|
          ensures tail[i].id != tail[j].id
        {
          assert tail[i] == xs[i + 1] && tail[j] == xs[j + 1];
        }
      }
      SortSorted(tail);
      forall x | x in Sort(tail)
        ensures x.id != xs[0].id
      {
        assert x in multiset(Sort(tail));
        assert x in multiset(tail);
        var k :| 0 <= k < |tail| && tail[k] == x;
        assert xs[k + 1] == x;
      }
      InsertSorted(xs[0], Sort(tail));
    }
  }

  /** A strictly ordered sequence has as many distinct elements as entries. */
  lemma {:induction false} SortedCard(xs: seq<Note>)
    requires SortedDesc(xs)
    ensures |Elems(xs)| == |xs|
  {
    if xs != [] {
      SortedTail(xs);
      SortedCard(xs[1..]);
      assert Elems(xs) == {xs[0]} + Elems(xs[1..]);
      assert xs[0] !in Elems(xs[1..]) by {
        forall y | y in Elems(xs[1..])
          ensures y != xs[0]
        {
          var k :| 0 <= k < |xs[1..]| && xs[1..][k] == y;
          assert Before(xs[0], xs[k + 1]);
        }
      }
    }
  }

  /** In a strictly ordered listing of `m`, the note at position `i` has
      exactly `i` notes of `m` before it. */
  lemma RankInOrdering(xs: seq<Note>, m: set<Note>, i: int)
    requires SortedDesc(xs) && Elems(xs) == m && 0 <= i < |xs|
    ensures Rank(xs[i], m) == i
  {
    var before := set x | x in m && Before(x, xs[i]);
    var prefix := xs[..i];
    forall x | x in before
      ensures x in Elems(prefix)
    {
      var j :| 0 <= j < |xs| && xs[j] == x;
      assert j < i;
      assert prefix[j] == x;
    }
    forall x | x in Elems(prefix)
      ensures x in before
    {
      var j :| 0 <= j < |prefix| && prefix[j] == x;
      assert xs[j] == x;
    }
    assert before == Elems(prefix);
    assert SortedDesc(prefix) by {
      forall a, b | 0 <= a < b < |prefix|
        ensures Before(prefix[a], prefix[b])
      {
        assert prefix[a] == xs[a] && prefix[b] == xs[b];
      }
    }
    SortedCard(prefix);
  }

  /** The rank of every entry of a strictly ordered listing is its index. */
  lemma RanksOfOrdering(xs: seq<Note>, m: set<Note>)
    requires SortedDesc(xs) && Elems(xs) == m
    ensures |m| == |xs|
    ensures forall i :: 0 <= i < |xs| ==> Rank(xs[i], m) == i
  {
    SortedCard(xs);
    forall i | 0 <= i < |xs|
      ensures Rank(xs[i], m) == i
    {
      RankInOrdering(xs, m, i);
    }
  }

  /** Two strictly ordered listings of the same notes are the same
      sequence: the order leaves no room for a different arrangement. */
  lemma {:induction false} OrderingIsUnique(xs: seq<Note>, ys: seq<Note>)
    requires SortedDesc(xs) && SortedDesc(ys) && Elems(xs) == Elems(ys)
    ensures xs == ys
  {
    var m := Elems(xs);
    RanksOfOrdering(xs, m);
    RanksOfOrdering(ys, m);
    forall i | 0 <= i < |xs|
      ensures xs[i] == ys[i]
    {
      assert xs[i] in Elems(ys);
      var j :| 0 <= j < |ys| && ys[j] == xs[i];
      assert Rank(ys[j], m) == j;
    }
  }
}
