/** `Paginator`: splits a range into pages of a fixed size. Iterators are
    modelled as offsets into the range. */
module Pages {

  /** A page as `Paginator` stores it: its first element and a second
      iterator, which is the page's last element for a full page and the
      first element again for a short final page. */
  datatype Page = Page(first: int, second: int)

  /** A half-open range of offsets `[begin, end)`. */
  datatype Span = Span(begin: int, end: int)

  /** The number of pages of `n` elements: `n / pageSize` rounded up. */
  function PageCount(n: nat, pageSize: nat): nat
    requires pageSize > 0
  {
    (n + pageSize - 1) / pageSize
  }

  /** Page `k` as the constructor's loop stores it. */
  function PageAt(begin: int, end: int, pageSize: nat, k: nat): Page
  {
    var first := begin + k * pageSize;
    if end - first < pageSize then Page(first, first) else Page(first, first + pageSize - 1)
  }

  /** Division of `q * d + r` by `d` for a remainder `0 <= r < d`. */
  lemma DivUnique(q: int, r: int, d: int)
    requires d > 0 && 0 <= r < d
    ensures (q * d + r) / d == q
  {
    var x := q * d + r;
    var m := x / d - q;
    assert m * d == r - x % d by {
      assert x == (x / d) * d + x % d;
    }
  }

  /** Multiplying by a non-negative factor keeps the order. */
  lemma MulMono(a: int, b: int, d: int)
    requires a <= b && d >= 0
    ensures a * d <= b * d
  {
    assert b * d - a * d == (b - a) * d;
  }

  /** `c` pages hold `n` elements when the first `c - 1` pages are full and
      the last one is not empty. */
  lemma CountOfPages(n: nat, pageSize: nat, c: nat)
    requires pageSize > 0
    requires n <= c * pageSize
    requires c == 0 || (c - 1) * pageSize < n
    ensures PageCount(n, pageSize) == c
  {
    if c == 0 {
      assert n == 0;
      DivUnique(0, pageSize - 1, pageSize);
    } else {
      var r := n + pageSize - 1 - c * pageSize;
      assert (c - 1) * pageSize == c * pageSize - pageSize;
      DivUnique(c, r, pageSize);
    }
  }

  class Paginator {
    var pages: seq<Page>
    /** The number of elements paginated and the page size. */
    ghost const length: nat
    ghost const pageSize: nat

    ghost predicate Valid()
      reads this
    {
      pageSize > 0 && |pages| == PageCount(length, pageSize)
    }

    /** The constructor's loop over `[begin, end)`: one page per
        `pageSize` elements, the last one possibly short. */
    constructor(begin: int, end: int, pageSize: nat)
      requires pageSize > 0
      ensures Valid()
      ensures this.pageSize == pageSize && length == if end <= begin then 0 else end - begin
      ensures forall k :: 0 <= k < |pages| ==> pages[k] == PageAt(begin, end, pageSize, k)
    {
      this.pageSize := pageSize;
      length := if end <= begin then 0 else end - begin;
      var start := begin;
      var built: seq<Page> := [];
      while start < end
        invariant start == begin + |built| * pageSize
        invariant |built| == 0 || begin + (|built| - 1) * pageSize < end
        invariant forall k :: 0 <= k < |built| ==> built[k] == PageAt(begin, end, pageSize, k)
      {
        if end - start < pageSize {
          built := built + [Page(start, start)];
        } else {
          built := built + [Page(start, start + pageSize - 1)];
        }
        start := start + pageSize;
      }
      pages := built;
      new;
      CountOfPages(length, pageSize, |pages|);
    }

    /** `size()`: the number of pages. */
    function Size(): (r: nat)
      requires Valid()
      reads this
      ensures r == PageCount(length, pageSize)
      ensures r == 0 <==> length == 0
    {
      |pages|
    }
  }

  /** `Paginate`: the pages of a whole container. */
  method Paginate<T>(container: seq<T>, pageSize: nat) returns (p: Paginator)
    requires pageSize > 0
    ensures fresh(p) && p.Valid()
    ensures p.length == |container| && p.pageSize == pageSize
    ensures forall k :: 0 <= k < |p.pages| ==> p.pages[k] == PageAt(0, |container|, pageSize, k)
  {
    p := new Paginator(0, |container|, pageSize);
  }

  /** Reading a page as the elements from `first` to `second` inclusive,
      which is what a full page holds. */
  predicate Covers(page: Page, offset: int)
  {
    page.first <= offset <= page.second
  }

  /** As written, a short final page of two or more elements covers only its
      first element: the range's last element lies on no page. */
  lemma ShortPageLosesTail(begin: int, end: int, pageSize: nat)
    requires pageSize > 0 && end > begin
    requires (end - begin) % pageSize >= 2
    ensures forall k :: 0 <= k < PageCount(end - begin, pageSize) ==> !Covers(PageAt(begin, end, pageSize, k), end - 1)
  {
    var n := end - begin;
    var q, r := n / pageSize, n % pageSize;
    assert n == q * pageSize + r;
    assert (q + 1) * pageSize == q * pageSize + pageSize;
    CountOfPages(n, pageSize, q + 1);
    forall k | 0 <= k < q + 1 ensures !Covers(PageAt(begin, end, pageSize, k), end - 1) {
      FullPagesEndEarly(begin, end, pageSize, q, r, k);
    }
  }

  lemma FullPagesEndEarly(begin: int, end: int, pageSize: nat, q: int, r: int, k: nat)
    requires pageSize > 0 && end - begin == q * pageSize + r && 2 <= r < pageSize
    requires k <= q
    ensures !Covers(PageAt(begin, end, pageSize, k), end - 1)
  {
    if k < q {
      MulMono(k + 1, q, pageSize);
      assert (k + 1) * pageSize == k * pageSize + pageSize;
    }
  }

  /** The intended page layout: page `k` is the next `pageSize`
      elements, or what is left of the range for the last page. */
  function IntendedPageAt(begin: int, end: int, pageSize: nat, k: nat): Span
  {
    var first := begin + k * pageSize;
    Span(first, if end - first < pageSize then end else first + pageSize)
  }

  /** Page `k` exists exactly when some element lies past the first `k`
      full pages. */
  lemma PageIndexBound(n: nat, pageSize: nat, k: nat)
    requires pageSize > 0
    ensures k < PageCount(n, pageSize) <==> k * pageSize < n
  {
    var c := PageCount(n, pageSize);
    var s := (n + pageSize - 1) % pageSize;
    assert n + pageSize - 1 == c * pageSize + s;
    assert (k + 1) * pageSize == k * pageSize + pageSize;
    if k < c {
      MulMono(k + 1, c, pageSize);
    } else {
      MulMono(c, k, pageSize);
    }
  }

  /** The intended page `k` of the range. */
  lemma IntendedPageShape(begin: int, end: int, pageSize: nat, k: nat)
    requires pageSize > 0 && begin <= end
    requires k < PageCount(end - begin, pageSize)
    ensures var page := IntendedPageAt(begin, end, pageSize, k);
      && begin <= page.begin < page.end <= end
      && (k + 1 < PageCount(end - begin, pageSize) ==> page.end - page.begin == pageSize)
  {
    PageIndexBound(end - begin, pageSize, k);
    PageIndexBound(end - begin, pageSize, k + 1);
    assert (k + 1) * pageSize == k * pageSize + pageSize;
  }

  /** The elements of the intended page `k` are those of the range whose
      page index is `k`. */
  lemma IntendedPageMembers(begin: int, end: int, pageSize: nat, k: nat, offset: int)
    requires pageSize > 0 && begin <= end
    ensures var page := IntendedPageAt(begin, end, pageSize, k);
      page.begin <= offset < page.end <==> begin <= offset < end && (offset - begin) / pageSize == k
  {
    var first := begin + k * pageSize;
    if first <= offset < first + pageSize {
      DivUnique(k, offset - first, pageSize);
    }
    var j := offset - begin;
    assert j == (j / pageSize) * pageSize + j % pageSize;
  }

  /** The intended pages partition the range: every element lies on page
      `(offset - begin) / pageSize` and on no other, there are `PageCount`
      pages, none empty, and every page but the last holds `pageSize`
      elements. */
  lemma IntendedPagesPartition(begin: int, end: int, pageSize: nat, offset: int, k: nat)
    requires pageSize > 0 && begin <= end
    ensures begin <= offset < end ==> (offset - begin) / pageSize < PageCount(end - begin, pageSize)
    ensures k < PageCount(end - begin, pageSize) ==>
      var page := IntendedPageAt(begin, end, pageSize, k);
      && begin <= page.begin < page.end <= end
      && (k + 1 < PageCount(end - begin, pageSize) ==> page.end - page.begin == pageSize)
      && (page.begin <= offset < page.end <==> begin <= offset < end && (offset - begin) / pageSize == k)
  {
    if begin <= offset < end {
      var j := offset - begin;
      assert (j / pageSize) * pageSize <= j by {
        assert j == (j / pageSize) * pageSize + j % pageSize;
      }
      PageIndexBound(end - begin, pageSize, j / pageSize);
    }
    if k < PageCount(end - begin, pageSize) {
      IntendedPageShape(begin, end, pageSize, k);
      IntendedPageMembers(begin, end, pageSize, k, offset);
    }
  }
}
