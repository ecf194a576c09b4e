/** Concrete walks through the service's behaviour on small tables. */
module Scenario {
  import opened Wrappers
  import opened Notes
  import opened Ordering
  import opened Repository
  import opened Listing

  /** No position of `hay` starts with the first character of `needle`, so
      `needle` does not occur in it. */
  lemma FirstCharAbsent(hay: string, needle: string)
    requires |needle| > 0
    requires forall i :: 0 <= i < |hay| ==> hay[i] != needle[0]
    ensures !Contains(hay, needle)
  {
    forall i | 0 <= i <= |hay|
      ensures !OccursAt(hay, needle, i)
    {
      if i + |needle| <= |hay| {
        assert hay[i..i + |needle|][0] == hay[i];
      }
    }
  }

  /** Create a note, change only its content, find it by a word of the
      content, delete it, and it is gone. */
  lemma GroceriesLifecycle(t1: int, t2: int)
    requires t1 < t2
    ensures var c := Create(Empty(), "Groceries", "milk, eggs", t1);
      && c.value == Some(Note(1, "Groceries", "milk, eggs", t1, t1))
      && var u := Update(c.store, 1, None, Some("milk, eggs, bread"), t2);
      && u.value == Some(Note(1, "Groceries", "milk, eggs, bread", t1, t2))
      && var l := List(u.store, Some("milk"), 1, 10);
      && l.total == 1
      && l.items == [Note(1, "Groceries", "milk, eggs, bread", t1, t2)]
      && var d := Delete(u.store, 1);
      && d.value
      && GetById(d.store, 1) == None
  {
    var c := Create(Empty(), "Groceries", "milk, eggs", t1);
    var u := Update(c.store, 1, None, Some("milk, eggs, bread"), t2);
    var n := Note(1, "Groceries", "milk, eggs, bread", t1, t2);
    assert u.store.notes == map[1 := n];
    assert OccursAt(n.content, "milk", 0);
    assert MatchingIds(u.store, Some("milk")) == {1};
    assert Matching(u.store, Some("milk")) == {n};
    var l := List(u.store, Some("milk"), 1, 10);
    assert |l.items| == 1 && l.items[0] in {n};
  }

  /** When exactly one row matches, page 1 lists exactly that row. */
  lemma OnlyMatchListed(s: Store, q: Option<string>, n: Note)
    requires Valid(s) && n.id in s.notes && s.notes[n.id] == n
    requires MatchingIds(s, q) == {n.id}
    ensures List(s, q, 1, 10).items == [n] && List(s, q, 1, 10).total == 1
  {
    forall x | x in Matching(s, q)
      ensures x == n
    {
      var k :| k in s.notes && Matches(s.notes[k], q) && s.notes[k] == x;
      assert k in MatchingIds(s, q);
    }
    assert n in Matching(s, q) by {
      assert n.id in MatchingIds(s, q);
    }
    assert Matching(s, q) == {n};
    var l := List(s, q, 1, 10);
    assert |l.items| == 1 && l.items[0] in {n};
  }

  /** When no row matches, page 1 is empty and the total is zero. */
  lemma NoMatchListed(s: Store, q: Option<string>)
    requires Valid(s) && MatchingIds(s, q) == {}
    ensures List(s, q, 1, 10).items == [] && List(s, q, 1, 10).total == 0
  {
  }

  /** The one-note table used by the search examples. */
  function ShoppingTable(t: int): Store {
    Create(Empty(), "Shopping", "buy milk", t).store
  }

  lemma ShoppingTableRows(t: int)
    ensures Valid(ShoppingTable(t))
    ensures ShoppingTable(t).notes == map[1 := Note(1, "Shopping", "buy milk", t, t)]
  {
  }

  /** A query found only in the title finds the note. */
  lemma SearchFindsTitle(t: int)
    ensures List(ShoppingTable(t), Some("Shopping"), 1, 10).items == [Note(1, "Shopping", "buy milk", t, t)]
  {
    var s, n := ShoppingTable(t), Note(1, "Shopping", "buy milk", t, t);
    ShoppingTableRows(t);
    assert OccursAt(n.title, "Shopping", 0);
    assert MatchingIds(s, Some("Shopping")) == {1};
    OnlyMatchListed(s, Some("Shopping"), n);
  }

  /** A query found only in the content finds the note. */
  lemma SearchFindsContent(t: int)
    ensures List(ShoppingTable(t), Some("milk"), 1, 10).items == [Note(1, "Shopping", "buy milk", t, t)]
  {
    var s, n := ShoppingTable(t), Note(1, "Shopping", "buy milk", t, t);
    ShoppingTableRows(t);
    assert OccursAt(n.content, "milk", 4);
    assert MatchingIds(s, Some("milk")) == {1};
    OnlyMatchListed(s, Some("milk"), n);
  }

  /** A query found in neither field returns no items and a zero total. */
  lemma SearchMissesBoth(t: int)
    ensures List(ShoppingTable(t), Some("xyz123"), 1, 10).items == []
    ensures List(ShoppingTable(t), Some("xyz123"), 1, 10).total == 0
  {
    var s, n := ShoppingTable(t), Note(1, "Shopping", "buy milk", t, t);
    ShoppingTableRows(t);
    FirstCharAbsent(n.title, "xyz123");
    FirstCharAbsent(n.content, "xyz123");
    assert MatchingIds(s, Some("xyz123")) == {};
    NoMatchListed(s, Some("xyz123"));
  }

  /** Of two notes where `a` is listed before `b`, `a` has rank 0 and `b`
      rank 1. */
  lemma PairRanks(a: Note, b: Note)
    requires Before(a, b)
    ensures Rank(a, {a, b}) == 0 && Rank(b, {a, b}) == 1
  {
    var m := {a, b};
    var beforeA := set x | x in m && Before(x, a);
    var beforeB := set x | x in m && Before(x, b);
    assert beforeA == {};
    assert beforeB == {a};
    assert Rank(a, m) == |beforeA| == 0;
    assert Rank(b, m) == |beforeB| == 1;
  }

  /** Two notes written at the same instant are listed newest id first. */
  lemma SameInstantNewestIdFirst(t: int)
    ensures var c1 := Create(Empty(), "A", "", t);
      var c2 := Create(c1.store, "B", "", t);
      List(c2.store, None, 1, 10).items == [c2.value.value, c1.value.value]
  {
    var n1, n2 := Note(1, "A", "", t, t), Note(2, "B", "", t, t);
    var c1 := Create(Empty(), "A", "", t);
    var c2 := Create(c1.store, "B", "", t);
    assert c1.value.value == n1 && c2.value.value == n2;
    var s := c2.store;
    assert s.notes == map[1 := n1, 2 := n2];
    assert MatchingIds(s, None) == {1, 2};
    assert Matching(s, None) == {n2, n1};
    PairRanks(n2, n1);
    var l := List(s, None, 1, 10);
    assert |l.items| == 2;
  }
}
