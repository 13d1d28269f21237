/**
  Page arithmetic of the posts app. Every listing view hands its ordered
  queryset to one helper that slices it into pages of a single, fixed size.
  Only page numbers between 1 and the page count are modelled.
 */
module Paginator {

  /** The one page size shared by every listing. */
  const PAGE_SIZE: nat := 10

  /** Number of pages for `count` items: an empty listing still has one
      (empty) first page. */
  function NumPages(count: nat): (n: nat)
    ensures n >= 1
    ensures count <= n * PAGE_SIZE
    ensures count > 0 ==> (n - 1) * PAGE_SIZE < count
    ensures count == 0 ==> n == 1
  {
    if count == 0 then 1 else (count + PAGE_SIZE - 1) / PAGE_SIZE
  }

  /** First index (0-based) of page `number`. */
  function PageStart(number: nat): nat
    requires number >= 1
  {
    (number - 1) * PAGE_SIZE
  }

  /** Page `number` (1-based) of `items`. */
  function Page<T>(items: seq<T>, number: nat): (r: seq<T>)
    requires 1 <= number <= NumPages(|items|)
    ensures |r| <= PAGE_SIZE
    ensures PageStart(number) + |r| <= |items|
    ensures forall i :: 0 <= i < |r| ==> r[i] == items[PageStart(number) + i]
    ensures number < NumPages(|items|) ==> |r| == PAGE_SIZE
    ensures number == NumPages(|items|) ==> PageStart(number) + |r| == |items|
    ensures |items| > 0 ==> |r| > 0
  {
    var start := PageStart(number);
    var stop := if start + PAGE_SIZE < |items| then start + PAGE_SIZE else |items|;
    items[start..stop]
  }

  /** The page-2 length the listing tests expect for `count` posts. */
  function ExpectedSecondPageLength(count: int): int
  {
    var onSecond := count - PAGE_SIZE;
    if onSecond > PAGE_SIZE then PAGE_SIZE else onSecond
  }

  /** With at least a page's worth of items, page 1 is full and starts with
      the first item of the listing. */
  lemma FirstPageFull<T>(items: seq<T>)
    requires |items| >= PAGE_SIZE
    ensures |Page(items, 1)| == PAGE_SIZE
    ensures Page(items, 1) == items[..PAGE_SIZE]
    ensures Page(items, 1)[0] == items[0]
  {
  }

  /** With more than one page of items, page 2 holds exactly what the tests'
      helper expects: min(PAGE_SIZE, count - PAGE_SIZE) items. */
  lemma SecondPageLength<T>(items: seq<T>)
    requires |items| > PAGE_SIZE
    ensures NumPages(|items|) >= 2
    ensures |Page(items, 2)| == ExpectedSecondPageLength(|items|)
    ensures |Page(items, 2)| == if |items| - PAGE_SIZE < PAGE_SIZE then |items| - PAGE_SIZE else PAGE_SIZE
  {
  }

  /** Cutting a listing into consecutive pages, front to back. */
  function Pages<T>(items: seq<T>): (r: seq<seq<T>>)
    ensures |r| >= 1
    decreases |items|
  {
    if |items| <= PAGE_SIZE then [items]
    else [items[..PAGE_SIZE]] + Pages(items[PAGE_SIZE..])
  }

  /** Concatenation of a sequence of pages. */
  function Flatten<T>(pages: seq<seq<T>>): seq<T>
  {
    if |pages| == 0 then [] else pages[0] + Flatten(pages[1..])
  }

  /** Reading all pages in order gives back the listing, each item once. */
  lemma {:induction false} PagesFlatten<T>(items: seq<T>)
    ensures Flatten(Pages(items)) == items
    decreases |items|
  {
    if |items| <= PAGE_SIZE {
      assert Pages(items) == [items];
      assert Flatten([items]) == items + Flatten([items][1..]);
      assert [items][1..] == [];
    } else {
      var ps := Pages(items);
      assert ps == [items[..PAGE_SIZE]] + Pages(items[PAGE_SIZE..]);
      assert ps[1..] == Pages(items[PAGE_SIZE..]);
      PagesFlatten(items[PAGE_SIZE..]);
      assert items == items[..PAGE_SIZE] + items[PAGE_SIZE..];
    }
  }

  /** Dropping the first page shifts every later page down by one. */
  lemma ShiftedPage<T>(items: seq<T>, number: nat)
    requires |items| > PAGE_SIZE
    requires 2 <= number <= NumPages(|items|)
    ensures NumPages(|items| - PAGE_SIZE) == NumPages(|items|) - 1
    ensures Page(items, number) == Page(items[PAGE_SIZE..], number - 1)
  {
    var rest := items[PAGE_SIZE..];
    assert NumPages(|rest|) == NumPages(|items|) - 1;
    var a := Page(items, number);
    var b := Page(rest, number - 1);
    assert |a| == |b|;
    forall i | 0 <= i < |a|
      ensures a[i] == b[i]
    {
      assert b[i] == rest[PageStart(number - 1) + i];
      assert PageStart(number - 1) + PAGE_SIZE == PageStart(number);
    }
  }

  /** The k-th piece of `Pages` is page k: the pages are exactly the
      numbered pages 1 .. NumPages. */
  lemma {:induction false} PagesAreNumbered<T>(items: seq<T>)
    ensures |Pages(items)| == NumPages(|items|)
    ensures forall n :: 1 <= n <= NumPages(|items|) ==> Pages(items)[n - 1] == Page(items, n)
    decreases |items|
  {
    if |items| <= PAGE_SIZE {
      assert NumPages(|items|) == 1;
      assert Page(items, 1) == items;
    } else {
      var rest := items[PAGE_SIZE..];
      PagesAreNumbered(rest);
      var ps := Pages(items);
      assert ps == [items[..PAGE_SIZE]] + Pages(rest);
      forall n | 1 <= n <= NumPages(|items|)
        ensures ps[n - 1] == Page(items, n)
      {
        if n == 1 {
          FirstPageFull(items);
        } else {
          ShiftedPage(items, n);
          assert ps[n - 1] == Pages(rest)[n - 2];
        }
      }
    }
  }
}
