/** The chapter page (resources/views/chapters/show.blade.php): the links to
    the neighbouring chapters, and the inline reader that steps through the
    page URLs on clicks. */
module ChapterView {
  import opened Text
  import opened Seqs
  import opened Catalog

  // ---------------------------------------------------------------- neighbours

  function Number(c: Chapter): int { c.number }

  function NegNumber(c: Chapter): int { -c.number }

  /** `$comic->chapters->where('number', '<', n)->sortByDesc('number')->first()`. */
  function PrevChapter(chapters: seq<Chapter>, n: int): Option<Chapter>
  {
    var sorted := SortBy(Filter(chapters, (c: Chapter) => c.number < n), ByKey(NegNumber));
    if sorted == [] then None else Some(sorted[0])
  }

  /** `$comic->chapters->where('number', '>', n)->sortBy('number')->first()`. */
  function NextChapter(chapters: seq<Chapter>, n: int): Option<Chapter>
  {
    var sorted := SortBy(Filter(chapters, (c: Chapter) => c.number > n), ByKey(Number));
    if sorted == [] then None else Some(sorted[0])
  }

  /** The head of a list sorted ascending by key has the least key of the list. */
  lemma HeadIsLeast(s: seq<Chapter>, key: Chapter -> int, x: Chapter)
    requires x in s
    ensures SortBy(s, ByKey(key)) != [] && key(SortBy(s, ByKey(key))[0]) <= key(x)
    ensures SortBy(s, ByKey(key))[0] in s
  {
    var r := SortBy(s, ByKey(key));
    SortByKeyAscending(s, key);
    assert x in multiset(r);
    var k :| 0 <= k < |r| && r[k] == x;
    if k > 0 {
      assert key(r[0]) <= key(r[k]);
    }
    assert r[0] in multiset(s);
  }

  /** The previous chapter is a chapter of the comic numbered below the
      current one with the largest such number; there is none exactly when
      no chapter is numbered below. */
  lemma PrevChapterIsLargestBelow(chapters: seq<Chapter>, n: int)
    ensures PrevChapter(chapters, n).None? <==> forall c :: c in chapters ==> c.number >= n
    ensures PrevChapter(chapters, n).Some? ==>
      var p := PrevChapter(chapters, n).value;
      p in chapters && p.number < n && forall c :: c in chapters && c.number < n ==> c.number <= p.number
  {
    var below := Filter(chapters, (c: Chapter) => c.number < n);
    if exists c :: c in chapters && c.number < n {
      var c :| c in chapters && c.number < n;
      HeadIsLeast(below, NegNumber, c);
      forall d | d in chapters && d.number < n ensures d.number <= PrevChapter(chapters, n).value.number {
        HeadIsLeast(below, NegNumber, d);
      }
    } else {
      FilterNone(chapters, (c: Chapter) => c.number < n);
    }
  }

  /** The next chapter is numbered above the current one with the smallest
      such number; there is none exactly when no chapter is numbered above. */
  lemma NextChapterIsSmallestAbove(chapters: seq<Chapter>, n: int)
    ensures NextChapter(chapters, n).None? <==> forall c :: c in chapters ==> c.number <= n
    ensures NextChapter(chapters, n).Some? ==>
      var q := NextChapter(chapters, n).value;
      q in chapters && q.number > n && forall c :: c in chapters && c.number > n ==> q.number <= c.number
  {
    var above := Filter(chapters, (c: Chapter) => c.number > n);
    if exists c :: c in chapters && c.number > n {
      var c :| c in chapters && c.number > n;
      HeadIsLeast(above, Number, c);
      forall d | d in chapters && d.number > n ensures NextChapter(chapters, n).value.number <= d.number {
        HeadIsLeast(above, Number, d);
      }
    } else {
      FilterNone(chapters, (c: Chapter) => c.number > n);
    }
  }

  /** The navigation links the page renders: one per neighbour that exists. */
  datatype Links = Links(prev: Option<Chapter>, next: Option<Chapter>)

  function ChapterLinks(chapters: seq<Chapter>, current: Chapter): Links
  {
    Links(PrevChapter(chapters, current.number), NextChapter(chapters, current.number))
  }

  /** The first chapter has no Prev link and the last no Next link. */
  lemma EndsHaveOneLink(chapters: seq<Chapter>, current: Chapter)
    ensures (forall c :: c in chapters ==> c.number >= current.number) ==> ChapterLinks(chapters, current).prev.None?
    ensures (forall c :: c in chapters ==> c.number <= current.number) ==> ChapterLinks(chapters, current).next.None?
  {
    PrevChapterIsLargestBelow(chapters, current.number);
    NextChapterIsSmallestAbove(chapters, current.number);
  }

  // ---------------------------------------------------------------- the inline reader

  /** The image the page starts with: the first URL, or none (the "No pages" box). */
  function FirstImage(pageUrls: seq<string>): Option<string>
  {
    if |pageUrls| > 0 then Some(pageUrls[0]) else None
  }

  /** A click on the right half moves forward unless on the last page, one on the left half back unless on the first. */
  function Click(index: int, count: nat, rightHalf: bool): int
  {
    if rightHalf then (if index < count - 1 then index + 1 else index)
    else (if index > 0 then index - 1 else index)
  }

  /** Clicks keep the index on a page: 0 <= index < count. */
  lemma ClickKeepsIndex(index: int, count: nat, rightHalf: bool)
    requires 0 <= index < count
    ensures 0 <= Click(index, count, rightHalf) < count
    ensures rightHalf && index < count - 1 ==> Click(index, count, rightHalf) == index + 1
    ensures !rightHalf && index > 0 ==> Click(index, count, rightHalf) == index - 1
    ensures Click(index, count, rightHalf) != index ==> (rightHalf && index < count - 1) || (!rightHalf && index > 0)
  {
  }

  /** With no pages there is no image: nothing is shown and no click can be handled. */
  lemma NoPagesNoImage(pageUrls: seq<string>)
    ensures FirstImage(pageUrls).None? <==> pageUrls == []
    ensures pageUrls != [] ==> FirstImage(pageUrls) == Some(pageUrls[0])
  {
  }

  /** The reader's closure: the URL list, the index and the image's src. */
  class InlineReader {
    const pages: seq<string>
    var index: int
    var src: string

    ghost predicate Valid()
      reads this
    {
      0 <= index < |pages|
    }

    /** Only built when the image exists, that is when there is a page. */
    constructor(pageUrls: seq<string>)
      requires |pageUrls| > 0
      ensures pages == pageUrls && index == 0 && src == pageUrls[0] && Valid()
    {
      pages := pageUrls;
      index := 0;
      src := pageUrls[0];
    }

    /** The click listener followed by show(): an empty URL leaves the image as it was. */
    method OnClick(rightHalf: bool)
      requires Valid()
      modifies this
      ensures Valid()
      ensures index == Click(old(index), |pages|, rightHalf)
      ensures src == if pages[index] != "" then pages[index] else old(src)
    {
      if rightHalf {
        if index < |pages| - 1 {
          index := index + 1;
        }
      } else {
        if index > 0 {
          index := index - 1;
        }
      }
      if pages[index] == "" {
        return;
      }
      src := pages[index];
    }
  }
}
