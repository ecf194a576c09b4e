/** Search and paginated listing: filter, then order, then slice. */
module Listing {
  import opened Wrappers
  import opened Notes
  import opened Ordering
  import opened Pagination

  /** Largest page size a caller may ask for. */
  const MaxLimit := 100

  /** `needle` appears in `hay` starting at position `i`. */
  predicate OccursAt(hay: string, needle: string, i: int) {
    0 <= i && i + |needle| <= |hay| && hay[i..i + |needle|] == needle
  }

  /** `needle` is a substring of `hay` (the `%needle%` pattern): it occurs
      only in a text at least as long, and the empty string and any prefix
      of `hay` occur in it. */
  predicate Contains(hay: string, needle: string)
    ensures Contains(hay, needle) ==> |needle| <= |hay|
    ensures |needle| <= |hay| && hay[..|needle|] == needle ==> Contains(hay, needle)
    ensures needle == [] ==> Contains(hay, needle)
  {
    assert |needle| <= |hay| && hay[..|needle|] == needle ==> OccursAt(hay, needle, 0);
    exists i | 0 <= i <= |hay| :: OccursAt(hay, needle, i)
  }

  /** The search filter. An absent or empty query filters nothing; otherwise
      a note matches when its title or its content contains the query. */
  predicate Matches(n: Note, q: Option<string>)
    ensures q.None? ==> Matches(n, q)
    ensures q.Some? ==> (Matches(n, q) <==> Contains(n.title, q.value) || Contains(n.content, q.value))
  {
    match q
    case None => true
    case Some(t) => t == [] || Contains(n.title, t) || Contains(n.content, t)
  }

  /** Ids of the rows the filter keeps. */
  function MatchingIds(s: Store, q: Option<string>): set<int> {
    set k | k in s.notes && Matches(s.notes[k], q)
  }

  /** The rows the filter keeps. */
  function Matching(s: Store, q: Option<string>): set<Note> {
    set k | k in s.notes && Matches(s.notes[k], q) :: s.notes[k]
  }

  /** A page of results and the number of matches over all pages. */
  datatype Listed = Listed(items: seq<Note>, total: int)

  /** Ids of the rows the filter keeps that are at least `lo`. */
  function IdsFrom(s: Store, q: Option<string>, lo: int): set<int> {
    set k | k in s.notes && lo <= k && Matches(s.notes[k], q)
  }

  lemma IdsFromStep(s: Store, q: Option<string>, lo: int)
    ensures IdsFrom(s, q, lo) ==
      (if lo in s.notes && Matches(s.notes[lo], q) then {lo} else {}) + IdsFrom(s, q, lo + 1)
  {
  }

  lemma IdsFromPastCounter(s: Store, q: Option<string>, lo: int)
    requires Valid(s) && lo >= s.nextId
    ensures IdsFrom(s, q, lo) == {}
  {
  }

  lemma IdsFromFirst(s: Store, q: Option<string>)
    requires Valid(s)
    ensures IdsFrom(s, q, FirstId) == MatchingIds(s, q)
  {
  }

  /** The matching rows with id at least `lo`, scanned in ascending id
      order: the rows a `WHERE` clause keeps. */
  function Collect(s: Store, q: Option<string>, lo: int): (r: seq<Note>)
    requires Valid(s)
    ensures forall i, j :: 0 <= i < j < |r| ==> r[i].id < r[j].id
    ensures forall i :: 0 <= i < |r| ==> r[i].id in IdsFrom(s, q, lo) && s.notes[r[i].id] == r[i]
    decreases s.nextId - lo
  {
    if lo >= s.nextId then []
    else
      var rest := Collect(s, q, lo + 1);
      if lo in s.notes && Matches(s.notes[lo], q) then [s.notes[lo]] + rest else rest
  }

  /** The scan misses no matching row, so its length is the match count. */
  lemma {:induction false} CollectComplete(s: Store, q: Option<string>, lo: int)
    requires Valid(s)
    ensures forall k :: k in IdsFrom(s, q, lo) ==> s.notes[k] in Collect(s, q, lo)
    ensures |Collect(s, q, lo)| == |IdsFrom(s, q, lo)|
    decreases s.nextId - lo
  {
    if lo >= s.nextId {
      IdsFromPastCounter(s, q, lo);
    } else {
      var rest := Collect(s, q, lo + 1);
      CollectComplete(s, q, lo + 1);
      IdsFromStep(s, q, lo);
      if lo in s.notes && Matches(s.notes[lo], q) {
        assert Collect(s, q, lo) == [s.notes[lo]] + rest;
        assert lo !in IdsFrom(s, q, lo + 1);
        assert IdsFrom(s, q, lo) == {lo} + IdsFrom(s, q, lo + 1);
      } else {
        assert Collect(s, q, lo) == rest;
        assert IdsFrom(s, q, lo) == IdsFrom(s, q, lo + 1);
      }
    }
  }

  /** The full scan holds exactly the matching rows, each once. */
  lemma ScanIsMatching(s: Store, q: Option<string>)
    requires Valid(s)
    ensures DistinctIds(Collect(s, q, FirstId))
    ensures Elems(Collect(s, q, FirstId)) == Matching(s, q)
    ensures |Collect(s, q, FirstId)| == |MatchingIds(s, q)|
  {
    var c := Collect(s, q, FirstId);
    IdsFromFirst(s, q);
    CollectComplete(s, q, FirstId);
    forall n | n in Matching(s, q)
      ensures n in c
    {
      var k :| k in s.notes && Matches(s.notes[k], q) && s.notes[k] == n;
      assert k in IdsFrom(s, q, FirstId);
    }
    forall n | n in c
      ensures n in Matching(s, q)
    {
      var i :| 0 <= i < |c| && c[i] == n;
      assert n.id in MatchingIds(s, q);
    }
  }

  /** All matching rows in listing order. */
  function Ordered(s: Store, q: Option<string>): (r: seq<Note>)
    requires Valid(s)
    ensures SortedDesc(r)
    ensures Elems(r) == Matching(s, q)
    ensures |r| == |MatchingIds(s, q)| == |Matching(s, q)|
  {
    var c := Collect(s, q, FirstId);
    ScanIsMatching(s, q);
    SortSorted(c);
    SortKeepsElems(c);
    var r := Sort(c);
    SortedCard(r);
    assert |r| == |c| by {
      assert |multiset(r)| == |multiset(c)|;
    }
    r
  }

  /** The repository's list operation. `total` counts every match; `items`
      holds the page's matches in listing order: entry `i` is the match
      with exactly `(page - 1) * limit + i` matches listed before it. */
  function List(s: Store, q: Option<string>, page: int, limit: int): (r: Listed)
    requires Valid(s)
    requires page >= 1
    requires 1 <= limit <= MaxLimit
    ensures r.total == |MatchingIds(s, q)| == |Matching(s, q)|
    ensures |r.items| == Min(limit, Max(0, r.total - Offset(page, limit)))
    ensures forall i :: 0 <= i < |r.items| ==>
      && r.items[i] in Matching(s, q)
      && Rank(r.items[i], Matching(s, q)) == Offset(page, limit) + i
    ensures SortedDesc(r.items)
  {
    var total := |Collect(s, q, FirstId)|;
    ScanIsMatching(s, q);
    var ordered := Ordered(s, q);
    var items := Window(ordered, page, limit);
    WindowOfOrdering(ordered, Matching(s, q), page, limit);
    Listed(items, total)
  }

  /** A window of a strictly ordered listing of `m` is itself strictly
      ordered, and holds the notes of `m` whose ranks are its positions. */
  lemma WindowOfOrdering(xs: seq<Note>, m: set<Note>, page: int, limit: int)
    requires SortedDesc(xs) && Elems(xs) == m && page >= 1 && limit >= 1
    ensures var w := Window(xs, page, limit);
      && SortedDesc(w)
      && forall i :: 0 <= i < |w| ==> w[i] in m && Rank(w[i], m) == Offset(page, limit) + i
  {
    var w := Window(xs, page, limit);
    var off := Offset(page, limit);
    forall i | 0 <= i < |w|
      ensures w[i] in m && Rank(w[i], m) == off + i
    {
      assert w[i] == xs[off + i];
      RankInOrdering(xs, m, off + i);
    }
    WindowSorted(xs, page, limit);
  }

  lemma WindowSorted(xs: seq<Note>, page: int, limit: int)
    requires SortedDesc(xs) && page >= 1 && limit >= 1
    ensures SortedDesc(Window(xs, page, limit))
  {
    var w := Window(xs, page, limit);
    var off := Offset(page, limit);
    forall i, j | 0 <= i < j < |w|
      ensures Before(w[i], w[j])
    {
      assert w[i] == xs[off + i] && w[j] == xs[off + j];
    }
  }

  /** A page is the corresponding window of the full ordered listing. */
  lemma ListIsWindow(s: Store, q: Option<string>, page: int, limit: int)
    requires Valid(s) && page >= 1 && 1 <= limit <= MaxLimit
    ensures List(s, q, page, limit).items == Window(Ordered(s, q), page, limit)
  {
  }

  /** With no query, or the empty one, every row matches and the total is
      the number of rows. */
  lemma NoQueryKeepsAll(s: Store, page: int, limit: int)
    requires Valid(s) && page >= 1 && 1 <= limit <= MaxLimit
    ensures MatchingIds(s, None) == MatchingIds(s, Some([])) == s.notes.Keys
    ensures List(s, None, page, limit).total == |s.notes|
    ensures List(s, Some([]), page, limit).total == |s.notes|
  {
    forall k | k in s.notes
      ensures Matches(s.notes[k], None) && Matches(s.notes[k], Some([]))
    {
    }
  }

  /** The total depends on the query alone, not on the page or its size. */
  lemma TotalIgnoresPaging(s: Store, q: Option<string>, p1: int, l1: int, p2: int, l2: int)
    requires Valid(s) && p1 >= 1 && p2 >= 1 && 1 <= l1 <= MaxLimit && 1 <= l2 <= MaxLimit
    ensures List(s, q, p1, l1).total == List(s, q, p2, l2).total
  {
  }

  /** Notes updated at the same instant are listed by descending id. */
  lemma TiesListedByIdDesc(s: Store, q: Option<string>, page: int, limit: int)
    requires Valid(s) && page >= 1 && 1 <= limit <= MaxLimit
    ensures var items := List(s, q, page, limit).items;
      forall i, j :: 0 <= i < j < |items| && items[i].updatedAt == items[j].updatedAt ==>
        items[i].id > items[j].id
  {
  }

  /** A page after the last one is empty and still reports the full total. */
  lemma PastLastPage(s: Store, q: Option<string>, page: int, limit: int)
    requires Valid(s) && 1 <= limit <= MaxLimit
    requires page > PageCount(|MatchingIds(s, q)|, limit)
    ensures List(s, q, page, limit).items == []
    ensures List(s, q, page, limit).total == |MatchingIds(s, q)|
  {
    PastEndIsEmpty(Ordered(s, q), limit, page);
  }

  /** Two different pages of one listing share no note. */
  lemma PagesDisjoint(s: Store, q: Option<string>, limit: int, p1: int, p2: int)
    requires Valid(s) && 1 <= limit <= MaxLimit
    requires p1 >= 1 && p2 >= 1 && p1 != p2
    ensures forall n :: n in List(s, q, p1, limit).items ==> n !in List(s, q, p2, limit).items
  {
    var ordered := Ordered(s, q);
    SortedHasNoRepeats(ordered);
    WindowsDisjoint(ordered, limit, p1, p2);
    ListIsWindow(s, q, p1, limit);
    ListIsWindow(s, q, p2, limit);
  }

  /** Pages 1 to `k` of one listing, one after another. */
  function AllPages(s: Store, q: Option<string>, limit: int, k: nat): seq<Note>
    requires Valid(s) && 1 <= limit <= MaxLimit
  {
    if k == 0 then [] else AllPages(s, q, limit, k - 1) + List(s, q, k, limit).items
  }

  lemma {:induction false} AllPagesAreWindows(s: Store, q: Option<string>, limit: int, k: nat)
    requires Valid(s) && 1 <= limit <= MaxLimit
    ensures AllPages(s, q, limit, k) == Pages(Ordered(s, q), limit, k)
  {
    if k > 0 {
      AllPagesAreWindows(s, q, limit, k - 1);
      ListIsWindow(s, q, k, limit);
    }
  }

  /** Walking pages 1 to ceil(total / limit) visits every match exactly
      once, in listing order: the pages concatenate to the ordered matches,
      their sizes add up to the total, and no note repeats. */
  lemma PagesPartitionMatches(s: Store, q: Option<string>, limit: int)
    requires Valid(s) && 1 <= limit <= MaxLimit
    ensures var all := AllPages(s, q, limit, PageCount(|MatchingIds(s, q)|, limit));
      && all == Ordered(s, q)
      && |all| == |MatchingIds(s, q)|
      && Elems(all) == Matching(s, q)
      && forall i, j :: 0 <= i < j < |all| ==> all[i] != all[j]
  {
    var ordered := Ordered(s, q);
    AllPagesAreWindows(s, q, limit, PageCount(|MatchingIds(s, q)|, limit));
    PagesCoverAll(ordered, limit);
  }

  /** Entry `r` of the ordered matches is on page r / limit + 1. */
  lemma EntryOnListedPage(s: Store, q: Option<string>, limit: int, r: int)
    requires Valid(s) && 1 <= limit <= MaxLimit
    requires 0 <= r < |Ordered(s, q)|
    ensures 1 <= r / limit + 1 <= PageCount(|MatchingIds(s, q)|, limit)
    ensures Ordered(s, q)[r] in List(s, q, r / limit + 1, limit).items
  {
    var ordered := Ordered(s, q);
    EntryOnItsPage(ordered, limit, r);
    ListIsWindow(s, q, r / limit + 1, limit);
  }

  /** Every match sits on page rank / limit + 1, which is one of the pages
      1 to ceil(total / limit). */
  lemma MatchOnItsPage(s: Store, q: Option<string>, limit: int, n: Note)
    requires Valid(s) && 1 <= limit <= MaxLimit
    requires n in Matching(s, q)
    ensures var page := Rank(n, Matching(s, q)) / limit + 1;
      && 1 <= page <= PageCount(|MatchingIds(s, q)|, limit)
      && n in List(s, q, page, limit).items
  {
    var ordered := Ordered(s, q);
    var r :| 0 <= r < |ordered| && ordered[r] == n;
    assert Rank(n, Matching(s, q)) == r by {
      RanksOfOrdering(ordered, Matching(s, q));
    }
    EntryOnListedPage(s, q, limit, r);
  }
}
