/** `LIMIT limit OFFSET (page - 1) * limit` over an ordered sequence, and
    how the pages of one listing fit together. */
module Pagination {

  function Min(a: int, b: int): int {
    if a <= b then a else b
  }

  function Max(a: int, b: int): int {
    if a <= b then b else a
  }

  /** How many entries precede the first entry of a 1-indexed page. */
  function Offset(page: int, limit: int): (o: int)
    requires page >= 1 && limit >= 1
    ensures o >= 0
    ensures page == 1 ==> o == 0
    ensures o + limit == page * limit
  {
    (page - 1) * limit
  }

  /** ceil(total / limit): the number of non-empty pages. */
  function PageCount(total: nat, limit: int): nat
    requires limit >= 1
  {
    if total == 0 then 0 else (total - 1) / limit + 1
  }

  /** The entries a page holds: skip the offset, then take at most `limit`.
      A page past the end is empty rather than an error. */
  function Window<T>(xs: seq<T>, page: int, limit: int): (w: seq<T>)
    requires page >= 1 && limit >= 1
    ensures |w| == Min(limit, Max(0, |xs| - Offset(page, limit)))
    ensures forall i :: 0 <= i < |w| ==> w[i] == xs[Offset(page, limit) + i]
  {
    var off := Offset(page, limit);
    if off >= |xs| then [] else xs[off..Min(|xs|, off + limit)]
  }

  /** Pages 1 to `k` one after another. */
  function Pages<T>(xs: seq<T>, limit: int, k: nat): seq<T>
    requires limit >= 1
  {
    if k == 0 then [] else Pages(xs, limit, k - 1) + Window(xs, k, limit)
  }

  lemma MulMono(a: int, b: int, limit: int)
    requires 0 <= a <= b && limit >= 1
    ensures a * limit <= b * limit
  {
  }

  /** PageCount is the ceiling: its pages hold at least `total` entries,
      and one page fewer would hold too few. */
  lemma {:induction false} PageCountIsCeiling(total: nat, limit: int)
    requires limit >= 1
    ensures PageCount(total, limit) * limit >= total
    ensures total > 0 ==> (PageCount(total, limit) - 1) * limit < total
    ensures PageCount(total, limit) == 0 <==> total == 0
  {
    if total > 0 {
      var q := (total - 1) / limit;
      assert q * limit + (total - 1) % limit == total - 1;
      assert (q + 1) * limit == q * limit + limit;
    }
  }

  /** Extending a prefix by the slice that follows it. */
  lemma PrefixExtend<T>(xs: seq<T>, a: int, b: int)
    requires 0 <= a <= b
    ensures xs[..Min(|xs|, a)] + (if a >= |xs| then [] else xs[a..Min(|xs|, b)]) == xs[..Min(|xs|, b)]
  {
    if a < |xs| {
      assert xs[..a] + xs[a..Min(|xs|, b)] == xs[..Min(|xs|, b)];
    }
  }

  /** The first `k` pages, concatenated, are the first `k * limit` entries
      (or all of them). */
  lemma {:induction false} PagesArePrefix<T>(xs: seq<T>, limit: int, k: nat)
    requires limit >= 1
    ensures Pages(xs, limit, k) == xs[..Min(|xs|, k * limit)]
  {
    if k > 0 {
      PagesArePrefix(xs, limit, k - 1);
      var off := Offset(k, limit);
      PrefixExtend(xs, off, off + limit);
    }
  }

  /** All PageCount pages together are exactly the listing, in order: every
      entry is on some page, and the page sizes add up to the length. */
  lemma PagesCoverAll<T>(xs: seq<T>, limit: int)
    requires limit >= 1
    ensures Pages(xs, limit, PageCount(|xs|, limit)) == xs
  {
    PageCountIsCeiling(|xs|, limit);
    PagesArePrefix(xs, limit, PageCount(|xs|, limit));
  }

  /** Positions inside two different pages are different positions. */
  lemma OffsetsSeparate(p1: int, p2: int, limit: int, i: int, j: int)
    requires p1 >= 1 && p2 >= 1 && limit >= 1 && p1 != p2
    requires 0 <= i < limit && 0 <= j < limit
    ensures Offset(p1, limit) + i != Offset(p2, limit) + j
  {
    if p1 < p2 {
      MulMono(p1, p2 - 1, limit);
      assert (p2 - 1) * limit >= p1 * limit == (p1 - 1) * limit + limit;
    } else {
      MulMono(p2, p1 - 1, limit);
      assert (p1 - 1) * limit >= p2 * limit == (p2 - 1) * limit + limit;
    }
  }

  /** Over a sequence without repeats, two different pages share no entry. */
  lemma WindowsDisjoint<T>(xs: seq<T>, limit: int, p1: int, p2: int)
    requires limit >= 1 && p1 >= 1 && p2 >= 1 && p1 != p2
    requires forall a, b :: 0 <= a < b < |xs| ==> xs[a] != xs[b]
    ensures forall x :: x in Window(xs, p1, limit) ==> x !in Window(xs, p2, limit)
  {
    var w1, w2 := Window(xs, p1, limit), Window(xs, p2, limit);
    forall i, j | 0 <= i < |w1| && 0 <= j < |w2|
      ensures w1[i] != w2[j]
    {
      OffsetsSeparate(p1, p2, limit, i, j);
    }
  }

  /** A page after the last non-empty one is empty. */
  lemma PastEndIsEmpty<T>(xs: seq<T>, limit: int, page: int)
    requires limit >= 1 && page > PageCount(|xs|, limit)
    ensures Window(xs, page, limit) == []
  {
    PageCountIsCeiling(|xs|, limit);
    MulMono(PageCount(|xs|, limit), page - 1, limit);
  }

  /** Pages 1 to PageCount are all non-empty. */
  lemma InRangeIsNonEmpty<T>(xs: seq<T>, limit: int, page: int)
    requires limit >= 1 && 1 <= page <= PageCount(|xs|, limit)
    ensures |Window(xs, page, limit)| > 0
  {
    PageCountIsCeiling(|xs|, limit);
    MulMono(page - 1, PageCount(|xs|, limit) - 1, limit);
  }

  lemma DivMono(a: nat, b: nat, limit: int)
    requires a <= b && limit >= 1
    ensures a / limit <= b / limit
  {
    if a / limit > b / limit {
      MulMono(b / limit + 1, a / limit, limit);
    }
  }

  /** Entry `r` of a listing is entry `r % limit` of page `r / limit + 1`,
      and that page is among the first PageCount. */
  lemma EntryOnItsPage<T>(xs: seq<T>, limit: int, r: int)
    requires limit >= 1 && 0 <= r < |xs|
    ensures var page := r / limit + 1;
      && 1 <= page <= PageCount(|xs|, limit)
      && r % limit < |Window(xs, page, limit)|
      && Window(xs, page, limit)[r % limit] == xs[r]
  {
    var page := r / limit + 1;
    assert Offset(page, limit) + r % limit == r;
    DivMono(r, |xs| - 1, limit);
  }
}
