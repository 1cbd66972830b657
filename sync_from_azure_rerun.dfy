/** What a completed `az:sync-from-storage` leaves behind, and why running it a
    second time on the same blob tree changes nothing. A catalogue is Synced
    with a tree when every comic directory has its comic row with the chosen
    cover, every numbered chapter directory its chapter row, and every numbered
    page file a page row holding its path. A live run makes its catalogue
    Synced (when names do not collide); a run on a Synced catalogue, live or
    dry, writes nothing. */
module SyncFromAzureRerun {
  import opened Text
  import opened Catalog
  import opened ComicModel
  import opened SyncFromAzure

  // ---------------------------------------------------------------- synced state

  ghost predicate PageSynced(db: Db, chapterId: nat, path: string)
  {
    PageSyncedAt(db, chapterId, PageNumber(path), path)
  }

  /** A page file whose number has been read as `n` is synced into chapter row chapterId. */
  ghost predicate PageSyncedAt(db: Db, chapterId: nat, n: Option<nat>, path: string)
  {
    n.Some? ==>
      var k := PageByKey(db, chapterId, n.value);
      k.Some? && db.pages[k.value].imagePath == path
  }

  /** Every page file of the list is synced into chapter row chapterId. */
  ghost predicate PagesSynced(db: Db, chapterId: nat, ps: seq<string>)
  {
    ps == [] || (PagesSynced(db, chapterId, ps[..|ps| - 1]) && PageSynced(db, chapterId, ps[|ps| - 1]))
  }

  lemma {:induction false} PagesSyncedOfAll(db: Db, chapterId: nat, ps: seq<string>)
    requires forall p :: p in ps ==> PageSynced(db, chapterId, p)
    ensures PagesSynced(db, chapterId, ps)
  {
    if ps != [] {
      var init := ps[..|ps| - 1];
      assert forall p :: p in init ==> p in ps;
      PagesSyncedOfAll(db, chapterId, init);
      assert ps[|ps| - 1] in ps;
    }
  }

  ghost predicate ChapterSynced(db: Db, comicId: nat, d: ChapterDir)
  {
    ChapterSyncedAt(db, comicId, ChapterNumber(d), PageOrder(d.files))
  }

  /** A chapter directory whose number has been read as `n` and whose page files
      come in the order `ps` is synced into comic row comicId. */
  ghost predicate ChapterSyncedAt(db: Db, comicId: nat, n: Option<nat>, ps: seq<string>)
  {
    n.Some? ==>
      ChapterByKey(db, comicId, n.value).Some? &&
      PagesSynced(db, ChapterByKey(db, comicId, n.value).value + 1, ps)
  }

  /** Every chapter directory of the list is synced into comic row comicId. */
  ghost predicate ChaptersSynced(db: Db, comicId: nat, ds: seq<ChapterDir>)
  {
    ds == [] || (ChaptersSynced(db, comicId, ds[..|ds| - 1]) && ChapterSynced(db, comicId, ds[|ds| - 1]))
  }

  lemma {:induction false} ChaptersSyncedOfAll(db: Db, comicId: nat, ds: seq<ChapterDir>)
    requires forall d :: d in ds ==> ChapterSynced(db, comicId, d)
    ensures ChaptersSynced(db, comicId, ds)
  {
    if ds != [] {
      var init := ds[..|ds| - 1];
      assert forall d :: d in init ==> d in ds;
      ChaptersSyncedOfAll(db, comicId, init);
      assert ds[|ds| - 1] in ds;
    }
  }

  ghost predicate CoverSynced(db: Db, i: nat, slug: string, objects: set<string>)
    requires i < |db.comics|
  {
    CoverCandidate(slug, objects).Some? ==> db.comics[i].coverPath == CoverCandidate(slug, objects)
  }

  ghost predicate ComicSynced(db: Db, c: ComicDir, objects: set<string>)
  {
    ComicSyncedAt(db, Basename(c.path), ChapterOrder(c.chapters), objects)
  }

  /** A comic directory named `slug` whose chapter directories come in the order
      `ds` is synced. */
  ghost predicate ComicSyncedAt(db: Db, slug: string, ds: seq<ChapterDir>, objects: set<string>)
  {
    var k := ComicBySlug(db, slug);
    k.Some? && CoverSynced(db, k.value, slug, objects) && ChaptersSynced(db, k.value + 1, ds)
  }

  ghost predicate Synced(db: Db, disk: BlobDisk)
  {
    GenreBySlug(db, DefaultGenreSlug).Some? && forall c :: c in disk.comics ==> ComicSynced(db, c, disk.objects)
  }

  // ---------------------------------------------------------------- a tree whose names do not collide

  ghost predicate PageNumbersDistinct(files: seq<string>)
  {
    forall p, q :: p in files && q in files && PageNumber(p).Some? && PageNumber(p) == PageNumber(q) ==> p == q
  }

  ghost predicate ChapterNumbersDistinct(ds: seq<ChapterDir>)
  {
    forall d, e :: d in ds && e in ds && ChapterNumber(d).Some? && ChapterNumber(d) == ChapterNumber(e) ==> d == e
  }

  /** Comic directory names are non-empty and not "0" and name one directory
      each; within a comic no two chapter directories carry the same number,
      and within a chapter directory no two page files do. */
  ghost predicate WellFormed(disk: BlobDisk)
  {
    (forall c :: c in disk.comics ==> Truthy(Basename(c.path))) &&
    (forall c, c' :: c in disk.comics && c' in disk.comics && Basename(c.path) == Basename(c'.path) ==> c == c') &&
    (forall c :: c in disk.comics ==> ChapterNumbersDistinct(c.chapters)) &&
    (forall c, d :: c in disk.comics && d in c.chapters ==> PageNumbersDistinct(d.files))
  }

  // ---------------------------------------------------------------- when names do collide

  /** A live page step for number n leaves a row keyed (chapterId, n) holding
      `path`, and moves no key. */
  lemma PageStepAtHoldsPath(db: Db, chapterId: nat, n: nat, path: string)
    ensures var r := PageStepAt(db, chapterId, Some(n), path, false);
      |db.pages| <= |r.pages| &&
      (forall j :: 0 <= j < |db.pages| ==>
        r.pages[j].chapterId == db.pages[j].chapterId && r.pages[j].pageNumber == db.pages[j].pageNumber) &&
      PageByKey(r, chapterId, n).Some? && r.pages[PageByKey(r, chapterId, n).value].imagePath == path
  {
    var r := PageStepAt(db, chapterId, Some(n), path, false);
    if PageByKey(db, chapterId, n).None? {
      PageIndexAppend(db.pages, Page(chapterId, n, path, None, None), chapterId, n);
    } else {
      PageByKeyStable(db, r, chapterId, n);
    }
  }

  /** Two live page steps for the same number n, with paths p != q: the row
      keyed (chapterId, n) ends holding q, and repeating the two steps writes
      twice and ends where it began. */
  lemma CollidingStepsRewrite(db: Db, chapterId: nat, n: nat, p: string, q: string)
    requires p != q
    ensures var r1 := PageStepAt(PageStepAt(db, chapterId, Some(n), p, false), chapterId, Some(n), q, false);
      PageByKey(r1, chapterId, n).Some? && r1.pages[PageByKey(r1, chapterId, n).value].imagePath == q &&
      PageStepAt(PageStepAt(r1, chapterId, Some(n), p, false), chapterId, Some(n), q, false) == r1.(writes := r1.writes + 2)
  {
    var d1 := PageStepAt(db, chapterId, Some(n), p, false);
    PageStepAtHoldsPath(db, chapterId, n, p);
    var r1 := PageStepAt(d1, chapterId, Some(n), q, false);
    PageStepAtHoldsPath(d1, chapterId, n, q);
    var i := PageByKey(r1, chapterId, n).value;
    var e1 := SetPageImagePath(r1, i, p);
    PageByKeyStable(r1, e1, chapterId, n);
    assert PageStepAt(r1, chapterId, Some(n), p, false) == e1;
    var e2 := SetPageImagePath(e1, i, q);
    assert e2.pages == r1.pages;
  }

  /** A pass over the files [p, q] is the page step for p, then for q. */
  lemma PagesFoldPair(db: Db, chapterId: nat, p: string, q: string, dryRun: bool)
    ensures PagesFold(db, chapterId, [p, q], dryRun) == PageStep(PageStep(db, chapterId, p, dryRun), chapterId, q, dryRun)
  {
    assert [p, q][..1] == [p] && [p][..0] == [];
    assert PagesFold(db, chapterId, [p], dryRun) == PageStep(db, chapterId, p, dryRun);
  }

  /** Two page files of one chapter whose names give the same number, such as
      page1.jpg and page01.jpg, are not idempotent: each live pass points the
      shared row at the first file and then back at the second, so every rerun
      issues two UPDATEs and ends where it began. */
  lemma CollidingPageNumbersRewriteEachRun(db: Db, chapterId: nat, p: string, q: string)
    requires p != q && PageNumber(p).Some? && PageNumber(p) == PageNumber(q)
    ensures var n := PageNumber(p).value;
      var r1 := PagesFold(db, chapterId, [p, q], false);
      PageByKey(r1, chapterId, n).Some? && r1.pages[PageByKey(r1, chapterId, n).value].imagePath == q &&
      PagesFold(r1, chapterId, [p, q], false) == r1.(writes := r1.writes + 2)
  {
    var n := PageNumber(p).value;
    var r1 := PagesFold(db, chapterId, [p, q], false);
    PagesFoldPair(db, chapterId, p, q, false);
    PagesFoldPair(r1, chapterId, p, q, false);
    CollidingStepsRewrite(db, chapterId, n, p, q);
  }

  /** A file name without '/' is read by the capture after "page". */
  lemma PageNumberOfPlainName(name: string, digits: string)
    requires '/' !in name && CaptureAfter(name, "page") == Some(digits) && digits != "0"
    ensures PageNumber(name) == Some(DigitsValue(digits))
  {
    BasenameOfPlainName(name);
  }

  lemma PageOneCapture()
    ensures CaptureAfter("page1.jpg", "page") == Some("1")
  {
    var a := "page1.jpg";
    CaptureAfterAtStart(a, "page");
    assert a[4..] == "1.jpg";
    assert DigitPrefix(".jpg") == [];
    assert DigitPrefix("1.jpg") == "1" by { assert "1.jpg"[1..] == ".jpg"; }
  }

  lemma PageZeroOneCapture()
    ensures CaptureAfter("page01.jpg", "page") == Some("01")
  {
    var b := "page01.jpg";
    CaptureAfterAtStart(b, "page");
    assert b[4..] == "01.jpg";
    assert DigitPrefix(".jpg") == [];
    assert DigitPrefix("1.jpg") == "1" by { assert "1.jpg"[1..] == ".jpg"; }
    assert DigitPrefix("01.jpg") == "01" by { assert "01.jpg"[1..] == "1.jpg"; }
  }

  lemma PageOneNumber()
    ensures PageNumber("page1.jpg") == Some(1)
  {
    PageOneCapture();
    assert DigitsValue("1") == 1 by {
      assert "1"[..0] == "";
    }
    PageNumberOfPlainName("page1.jpg", "1");
  }

  lemma PageZeroOneNumber()
    ensures PageNumber("page01.jpg") == Some(1)
  {
    PageZeroOneCapture();
    assert DigitsValue("01") == 1 by {
      assert "01"[..1] == "0" && "0"[..0] == "";
    }
    PageNumberOfPlainName("page01.jpg", "01");
  }

  /** page1.jpg and page01.jpg both give page 1. */
  lemma PaddedPageNamesCollide()
    ensures PageNumber("page1.jpg") == PageNumber("page01.jpg") == Some(1)
  {
    PageOneNumber();
    PageZeroOneNumber();
  }

  // ---------------------------------------------------------------- on a synced catalogue nothing is written

  lemma PageStepOnSynced(db: Db, chapterId: nat, p: string, dryRun: bool)
    requires PageSynced(db, chapterId, p)
    ensures PageStep(db, chapterId, p, dryRun) == db
  {
  }

  lemma {:induction false} PagesFoldOnSynced(db: Db, chapterId: nat, ps: seq<string>, dryRun: bool)
    requires PagesSynced(db, chapterId, ps)
    ensures PagesFold(db, chapterId, ps, dryRun) == db
  {
    if ps != [] {
      PagesFoldOnSynced(db, chapterId, ps[..|ps| - 1], dryRun);
      PageStepOnSynced(db, chapterId, ps[|ps| - 1], dryRun);
    }
  }

  lemma ChapterStepOnSynced(db: Db, comicId: nat, d: ChapterDir, dryRun: bool)
    requires ChapterSynced(db, comicId, d)
    ensures ChapterStep(db, comicId, d, dryRun) == db
  {
    if ChapterNumber(d).Some? {
      NumberedChapterStepOnSynced(db, comicId, d, dryRun);
    } else {
      ChapterStepWithoutNumber(db, comicId, d, dryRun);
    }
  }

  lemma NumberedChapterStepOnSynced(db: Db, comicId: nat, d: ChapterDir, dryRun: bool)
    requires ChapterSynced(db, comicId, d) && ChapterNumber(d).Some?
    ensures ChapterStep(db, comicId, d, dryRun) == db
  {
    var k := ChapterSyncedRow(db, comicId, ChapterNumber(d), PageOrder(d.files));
    FoundChapterStepOnSynced(db, comicId, d, dryRun, k);
  }

  lemma FoundChapterStepOnSynced(db: Db, comicId: nat, d: ChapterDir, dryRun: bool, k: nat)
    requires ChapterNumber(d).Some? && ChapterByKey(db, comicId, ChapterNumber(d).value) == Some(k)
    requires PagesSynced(db, k + 1, PageOrder(d.files))
    ensures ChapterStep(db, comicId, d, dryRun) == db
  {
    ChapterStepFound(db, comicId, d, dryRun, k);
    PagesFoldOnSynced(db, k + 1, PageOrder(d.files), dryRun);
  }

  /** The chapter row a synced, numbered chapter directory has, and its synced pages. */
  lemma ChapterSyncedRow(db: Db, comicId: nat, n: Option<nat>, ps: seq<string>) returns (k: nat)
    requires ChapterSyncedAt(db, comicId, n, ps) && n.Some?
    ensures ChapterByKey(db, comicId, n.value) == Some(k)
    ensures PagesSynced(db, k + 1, ps)
  {
    k := ChapterByKey(db, comicId, n.value).value;
  }

  lemma {:induction false} ChaptersFoldOnSynced(db: Db, comicId: nat, ds: seq<ChapterDir>, dryRun: bool)
    requires ChaptersSynced(db, comicId, ds)
    ensures ChaptersFold(db, comicId, ds, dryRun) == db
  {
    if ds != [] {
      ChaptersFoldOnSynced(db, comicId, ds[..|ds| - 1], dryRun);
      ChapterStepOnSynced(db, comicId, ds[|ds| - 1], dryRun);
    }
  }

  lemma ComicStepOnSynced(db: Db, genreId: nat, c: ComicDir, objects: set<string>, dryRun: bool, fns: StrFns)
    requires ComicSynced(db, c, objects)
    ensures ComicStep(db, genreId, c, objects, dryRun, fns) == db
  {
    var k := ComicSyncedRow(db, Basename(c.path), ChapterOrder(c.chapters), objects);
    FoundComicStepOnSynced(db, genreId, c, objects, dryRun, fns, k);
  }

  /** The comic row a synced comic directory has, its cover and its synced chapters. */
  lemma ComicSyncedRow(db: Db, slug: string, ds: seq<ChapterDir>, objects: set<string>) returns (k: nat)
    requires ComicSyncedAt(db, slug, ds, objects)
    ensures ComicBySlug(db, slug) == Some(k) && k < |db.comics|
    ensures CoverSynced(db, k, slug, objects)
    ensures ChaptersSynced(db, k + 1, ds)
  {
    k := ComicBySlug(db, slug).value;
  }

  lemma FoundComicStepOnSynced(db: Db, genreId: nat, c: ComicDir, objects: set<string>, dryRun: bool, fns: StrFns, k: nat)
    requires ComicBySlug(db, Basename(c.path)) == Some(k) && k < |db.comics|
    requires CoverSynced(db, k, Basename(c.path), objects)
    requires ChaptersSynced(db, k + 1, ChapterOrder(c.chapters))
    ensures ComicStep(db, genreId, c, objects, dryRun, fns) == db
  {
    ComicStepFound(db, genreId, c, objects, dryRun, fns, k);
    CoverStepOnSynced(db, k, Basename(c.path), objects, dryRun);
    ChaptersFoldOnSynced(db, k + 1, ChapterOrder(c.chapters), dryRun);
  }

  lemma CoverStepOnSynced(db: Db, k: nat, slug: string, objects: set<string>, dryRun: bool)
    requires k < |db.comics| && CoverSynced(db, k, slug, objects)
    ensures CoverStep(db, k, slug, objects, dryRun) == db
  {
  }

  lemma {:induction false} ComicsFoldOnSynced(db: Db, genreId: nat, cs: seq<ComicDir>, objects: set<string>, dryRun: bool, fns: StrFns)
    requires forall c :: c in cs ==> ComicSynced(db, c, objects)
    ensures ComicsFold(db, genreId, cs, objects, dryRun, fns) == db
  {
    if cs != [] {
      var init := cs[..|cs| - 1];
      assert forall c :: c in init ==> c in cs;
      ComicsFoldOnSynced(db, genreId, init, objects, dryRun, fns);
      ComicStepOnSynced(db, genreId, cs[|cs| - 1], objects, dryRun, fns);
    }
  }

  /** A run over a catalogue already Synced with the tree, live or dry, leaves
      every table and the write counter as they were. */
  lemma RunOnSynced(db: Db, disk: BlobDisk, dryRun: bool, fns: StrFns)
    requires Synced(db, disk)
    ensures Run(db, disk, dryRun, fns).1 == db
  {
    if disk.hasComics {
      var genre := GenreFirstOrCreate(db, DefaultGenreSlug, DefaultGenreName);
      assert genre.0 == db;
      ComicsFoldOnSynced(db, genre.1, disk.comics, disk.objects, dryRun, fns);
    }
  }

  // ---------------------------------------------------------------- frames

  /** Rows are only appended or changed in place without touching their keys;
      the covers of rows outside `coverRows` and the image paths of pages of
      chapters outside `pageChapters` are unchanged. */
  ghost predicate Grows(db: Db, db': Db, coverRows: set<nat>, pageChapters: set<nat>)
  {
    db.genres <= db'.genres &&
    |db.comics| <= |db'.comics| &&
    (forall j :: 0 <= j < |db.comics| ==> db'.comics[j].slug == db.comics[j].slug) &&
    (forall j :: 0 <= j < |db.comics| && j !in coverRows ==> db'.comics[j].coverPath == db.comics[j].coverPath) &&
    db.chapters <= db'.chapters &&
    |db.pages| <= |db'.pages| &&
    (forall j :: 0 <= j < |db.pages| ==>
       db'.pages[j].chapterId == db.pages[j].chapterId && db'.pages[j].pageNumber == db.pages[j].pageNumber) &&
    (forall j :: 0 <= j < |db.pages| && db.pages[j].chapterId !in pageChapters ==>
       db'.pages[j].imagePath == db.pages[j].imagePath)
  }

  lemma GrowsTrans(a: Db, b: Db, c: Db, rows1: set<nat>, ids1: set<nat>, rows2: set<nat>, ids2: set<nat>)
    requires Grows(a, b, rows1, ids1) && Grows(b, c, rows2, ids2)
    ensures Grows(a, c, rows1 + rows2, ids1 + ids2)
  {
  }

  lemma GrowsCompose(a: Db, b: Db, c: Db, rows1: set<nat>, ids1: set<nat>, rows2: set<nat>, ids2: set<nat>,
                     rows: set<nat>, ids: set<nat>)
    requires Grows(a, b, rows1, ids1) && Grows(b, c, rows2, ids2)
    requires rows1 + rows2 <= rows && ids1 + ids2 <= ids
    ensures Grows(a, c, rows, ids)
  {
  }

  lemma GrowsWeaken(a: Db, b: Db, rows: set<nat>, ids: set<nat>, rows': set<nat>, ids': set<nat>)
    requires Grows(a, b, rows, ids) && rows <= rows' && ids <= ids'
    ensures Grows(a, b, rows', ids')
  {
  }

  predicate InComic(db: Db, chapterId: nat, comicId: nat)
  {
    1 <= chapterId <= |db.chapters| && db.chapters[chapterId - 1].comicId == comicId
  }

  ghost function ChapterIdsOf(db: Db, comicId: nat): set<nat>
  {
    set ch | 1 <= ch <= |db.chapters| && InComic(db, ch, comicId)
  }

  lemma PageSyncedKept(db: Db, db': Db, rows: set<nat>, ids: set<nat>, chapterId: nat, p: string)
    requires Grows(db, db', rows, ids) && PageSynced(db, chapterId, p) && chapterId !in ids
    ensures PageSynced(db', chapterId, p)
  {
    if PageNumber(p).Some? {
      PageByKeyStable(db, db', chapterId, PageNumber(p).value);
    }
  }

  lemma ChapterSyncedKept(db: Db, db': Db, rows: set<nat>, ids: set<nat>, comicId: nat, num: Option<nat>, ps: seq<string>)
    requires Grows(db, db', rows, ids) && ChapterSyncedAt(db, comicId, num, ps)
    requires num.Some? ==> ChapterByKey(db, comicId, num.value).value + 1 !in ids
    ensures ChapterSyncedAt(db', comicId, num, ps)
  {
    if num.Some? {
      var k := ChapterSyncedRow(db, comicId, num, ps);
      ChapterByKeyStable(db, db', comicId, num.value);
      PagesSyncedKept(db, db', rows, ids, k + 1, ps);
    }
  }

  lemma {:induction false} PagesSyncedKept(db: Db, db': Db, rows: set<nat>, ids: set<nat>, chapterId: nat, ps: seq<string>)
    requires Grows(db, db', rows, ids) && PagesSynced(db, chapterId, ps) && chapterId !in ids
    ensures PagesSynced(db', chapterId, ps)
  {
    if ps != [] {
      PagesSyncedKept(db, db', rows, ids, chapterId, ps[..|ps| - 1]);
      PageSyncedKept(db, db', rows, ids, chapterId, ps[|ps| - 1]);
    }
  }

  lemma CoverSyncedKept(db: Db, db': Db, rows: set<nat>, ids: set<nat>, i: nat, slug: string, objects: set<string>)
    requires Grows(db, db', rows, ids) && i < |db.comics| && i !in rows && CoverSynced(db, i, slug, objects)
    ensures i < |db'.comics| && CoverSynced(db', i, slug, objects)
  {
  }

  lemma {:induction false} ChaptersSyncedKept(db: Db, db': Db, rows: set<nat>, ids: set<nat>, comicId: nat, ds: seq<ChapterDir>)
    requires Grows(db, db', rows, ids) && ChaptersSynced(db, comicId, ds)
    requires forall ch :: ch in ids ==> !InComic(db, ch, comicId)
    ensures ChaptersSynced(db', comicId, ds)
  {
    if ds != [] {
      ChaptersSyncedKept(db, db', rows, ids, comicId, ds[..|ds| - 1]);
      var d := ds[|ds| - 1];
      ChapterOfComicKept(db, db', rows, ids, comicId, ChapterNumber(d), PageOrder(d.files));
    }
  }

  lemma ComicSyncedKept(db: Db, db': Db, rows: set<nat>, ids: set<nat>, slug: string, ds: seq<ChapterDir>, objects: set<string>, k: nat)
    requires Grows(db, db', rows, ids) && ComicSyncedAt(db, slug, ds, objects)
    requires ComicBySlug(db, slug) == Some(k) && k !in rows
    requires forall ch :: ch in ids ==> !InComic(db, ch, k + 1)
    ensures ComicSyncedAt(db', slug, ds, objects)
  {
    var k' := ComicSyncedRow(db, slug, ds, objects);
    ComicBySlugStable(db, db', slug);
    CoverSyncedKept(db, db', rows, ids, k, slug, objects);
    ChaptersSyncedKept(db, db', rows, ids, k + 1, ds);
  }

  lemma ChapterOfComicKept(db: Db, db': Db, rows: set<nat>, ids: set<nat>, comicId: nat, num: Option<nat>, ps: seq<string>)
    requires Grows(db, db', rows, ids) && ChapterSyncedAt(db, comicId, num, ps)
    requires forall ch :: ch in ids ==> !InComic(db, ch, comicId)
    ensures ChapterSyncedAt(db', comicId, num, ps)
  {
    if num.Some? {
      var idx := ChapterSyncedRow(db, comicId, num, ps);
      assert InComic(db, idx + 1, comicId);
    }
    ChapterSyncedKept(db, db', rows, ids, comicId, num, ps);
  }

  // ---------------------------------------------------------------- what each step may touch

  lemma PageStepGrows(db: Db, chapterId: nat, p: string, dryRun: bool)
    ensures Grows(db, PageStep(db, chapterId, p, dryRun), {}, {chapterId})
  {
    PageStepAtGrows(db, chapterId, PageNumber(p), p, dryRun);
  }

  lemma PageStepAtGrows(db: Db, chapterId: nat, num: Option<nat>, p: string, dryRun: bool)
    ensures Grows(db, PageStepAt(db, chapterId, num, p, dryRun), {}, {chapterId})
  {
  }

  lemma {:induction false} PagesFoldGrows(db: Db, chapterId: nat, ps: seq<string>, dryRun: bool)
    ensures Grows(db, PagesFold(db, chapterId, ps, dryRun), {}, {chapterId})
  {
    if ps != [] {
      var mid := PagesFold(db, chapterId, ps[..|ps| - 1], dryRun);
      PagesFoldGrows(db, chapterId, ps[..|ps| - 1], dryRun);
      PageStepGrows(mid, chapterId, ps[|ps| - 1], dryRun);
      GrowsTrans(db, mid, PagesFold(db, chapterId, ps, dryRun), {}, {chapterId}, {}, {chapterId});
      assert {chapterId} + {chapterId} == {chapterId};
    }
  }

  /** The chapter ids whose pages a chapter step may rewrite: none when the
      directory is skipped, else the one it found or created. */
  function ChapterStepIds(db: Db, comicId: nat, num: Option<nat>, title: Option<string>): set<nat>
  {
    match num
    case None => {}
    case Some(n) => {ChapterFirstOrCreate(db, comicId, n, title).1}
  }

  lemma ChapterStepGrows(db: Db, comicId: nat, num: Option<nat>, title: Option<string>, ps: seq<string>, dryRun: bool)
    ensures var r := ChapterStepAt(db, comicId, num, title, ps, dryRun);
      Grows(db, r, {}, ChapterStepIds(db, comicId, num, title)) &&
      forall ch :: ch in ChapterStepIds(db, comicId, num, title) ==>
        InComic(r, ch, comicId) && r.chapters[ch - 1].number == num.value
  {
    if num.Some? {
      var chapter := ChapterFirstOrCreate(db, comicId, num.value, title);
      PagesFoldGrows(chapter.0, chapter.1, ps, dryRun);
      GrowsTrans(db, chapter.0, ChapterStepAt(db, comicId, num, title, ps, dryRun), {}, {}, {}, {chapter.1});
      assert {} + {chapter.1} == ChapterStepIds(db, comicId, num, title);
    }
  }

  /** The chapters of a comic after a step: those it had, and the one the step
      found or created. */
  lemma ChapterIdsGrow(mid: Db, r: Db, comicId: nat, ids: set<nat>)
    requires mid.chapters <= r.chapters
    requires forall ch :: ch in ids ==> InComic(r, ch, comicId)
    ensures ChapterIdsOf(mid, comicId) + ids <= ChapterIdsOf(r, comicId)
  {
    forall ch | ch in ChapterIdsOf(mid, comicId) ensures ch in ChapterIdsOf(r, comicId) {
      assert InComic(mid, ch, comicId);
      assert r.chapters[ch - 1] == mid.chapters[ch - 1];
    }
  }

  lemma {:induction false} ChaptersFoldGrows(db: Db, comicId: nat, ds: seq<ChapterDir>, dryRun: bool)
    ensures var r := ChaptersFold(db, comicId, ds, dryRun);
      Grows(db, r, {}, ChapterIdsOf(r, comicId))
  {
    if ds != [] {
      var mid := ChaptersFold(db, comicId, ds[..|ds| - 1], dryRun);
      var d := ds[|ds| - 1];
      var r := ChapterStepAt(mid, comicId, ChapterNumber(d), ChapterTitle(d), PageOrder(d.files), dryRun);
      var ids := ChapterStepIds(mid, comicId, ChapterNumber(d), ChapterTitle(d));
      ChaptersFoldGrows(db, comicId, ds[..|ds| - 1], dryRun);
      ChapterStepGrows(mid, comicId, ChapterNumber(d), ChapterTitle(d), PageOrder(d.files), dryRun);
      ChapterIdsGrow(mid, r, comicId, ids);
      GrowsCompose(db, mid, r, {}, ChapterIdsOf(mid, comicId), {}, ids, {}, ChapterIdsOf(r, comicId));
    }
  }

  lemma CoverStepGrows(db: Db, i: nat, slug: string, objects: set<string>, dryRun: bool)
    requires i < |db.comics|
    ensures Grows(db, CoverStep(db, i, slug, objects, dryRun), {i}, {})
  {
  }

  /** The comic row a comic step works on. */
  function ComicStepRow(db: Db, genreId: nat, slug: string, fns: StrFns): nat
  {
    ComicFirstOrCreate(db, slug, TitleFromSlug(slug, fns), genreId, fns).1 - 1
  }

  lemma ComicFirstOrCreateGrows(db: Db, slug: string, title: string, genreId: nat, fns: StrFns)
    ensures Grows(db, ComicFirstOrCreate(db, slug, title, genreId, fns).0, {}, {})
  {
  }

  /** The comic row found or created, then its cover: only that row's cover changes. */
  function CreatedWithCover(db: Db, genreId: nat, slug: string, objects: set<string>, dryRun: bool, fns: StrFns): Db
  {
    var created := ComicFirstOrCreate(db, slug, TitleFromSlug(slug, fns), genreId, fns);
    CoverStep(created.0, created.1 - 1, slug, objects, dryRun)
  }

  lemma CreatedWithCoverGrows(db: Db, genreId: nat, slug: string, objects: set<string>, dryRun: bool, fns: StrFns)
    ensures var db2 := CreatedWithCover(db, genreId, slug, objects, dryRun, fns);
      var k := ComicStepRow(db, genreId, slug, fns);
      Grows(db, db2, {k}, {}) && k < |db2.comics| && (Truthy(slug) ==> db2.comics[k].slug == slug)
  {
    var created := ComicFirstOrCreate(db, slug, TitleFromSlug(slug, fns), genreId, fns);
    var k := created.1 - 1;
    ComicFirstOrCreateGrows(db, slug, TitleFromSlug(slug, fns), genreId, fns);
    CoverStepGrows(created.0, k, slug, objects, dryRun);
    GrowsCompose(db, created.0, CreatedWithCover(db, genreId, slug, objects, dryRun, fns), {}, {}, {k}, {}, {k}, {});
    if Truthy(slug) {
      assert created.0.comics[k].slug == slug;
    }
  }

  lemma ComicStepGrows(db: Db, genreId: nat, slug: string, ds: seq<ChapterDir>, objects: set<string>, dryRun: bool, fns: StrFns)
    ensures var r := ComicStepAt(db, genreId, slug, ds, objects, dryRun, fns);
      var k := ComicStepRow(db, genreId, slug, fns);
      Grows(db, r, {k}, ChapterIdsOf(r, k + 1)) && k < |r.comics| && (Truthy(slug) ==> r.comics[k].slug == slug)
  {
    var k := ComicStepRow(db, genreId, slug, fns);
    var db2 := CreatedWithCover(db, genreId, slug, objects, dryRun, fns);
    var r := ChaptersFold(db2, k + 1, ds, dryRun);
    assert r == ComicStepAt(db, genreId, slug, ds, objects, dryRun, fns);
    var ids := ChapterIdsOf(r, k + 1);
    CreatedWithCoverGrows(db, genreId, slug, objects, dryRun, fns);
    ChaptersFoldGrows(db2, k + 1, ds, dryRun);
    GrowsCompose(db, db2, r, {k}, {}, {}, ids, {k}, ids);
  }

  lemma {:induction false} ComicsFoldGrows(db: Db, genreId: nat, cs: seq<ComicDir>, objects: set<string>, dryRun: bool, fns: StrFns)
    ensures ComicsFold(db, genreId, cs, objects, dryRun, fns).genres == db.genres
  {
    if cs != [] {
      var mid := ComicsFold(db, genreId, cs[..|cs| - 1], objects, dryRun, fns);
      ComicsFoldGrows(db, genreId, cs[..|cs| - 1], objects, dryRun, fns);
      ComicStepKeepsGenres(mid, genreId, cs[|cs| - 1], objects, dryRun, fns);
    }
  }

  lemma ComicStepKeepsGenres(db: Db, genreId: nat, c: ComicDir, objects: set<string>, dryRun: bool, fns: StrFns)
    ensures ComicStep(db, genreId, c, objects, dryRun, fns).genres == db.genres
  {
    var slug := Basename(c.path);
    var created := ComicFirstOrCreate(db, slug, TitleFromSlug(slug, fns), genreId, fns);
    var db2 := CoverStep(created.0, created.1 - 1, slug, objects, dryRun);
    ChaptersFoldKeepsGenres(db2, created.1, ChapterOrder(c.chapters), dryRun);
  }

  lemma {:induction false} ChaptersFoldKeepsGenres(db: Db, comicId: nat, ds: seq<ChapterDir>, dryRun: bool)
    ensures ChaptersFold(db, comicId, ds, dryRun).genres == db.genres
  {
    if ds != [] {
      var mid := ChaptersFold(db, comicId, ds[..|ds| - 1], dryRun);
      ChaptersFoldKeepsGenres(db, comicId, ds[..|ds| - 1], dryRun);
      var d := ds[|ds| - 1];
      if ChapterNumber(d).Some? {
        var chapter := ChapterFirstOrCreate(mid, comicId, ChapterNumber(d).value, ChapterTitle(d));
        PagesFoldKeepsGenres(chapter.0, chapter.1, PageOrder(d.files), dryRun);
      }
    }
  }

  lemma {:induction false} PagesFoldKeepsGenres(db: Db, chapterId: nat, ps: seq<string>, dryRun: bool)
    ensures PagesFold(db, chapterId, ps, dryRun).genres == db.genres
  {
    if ps != [] {
      PagesFoldKeepsGenres(db, chapterId, ps[..|ps| - 1], dryRun);
    }
  }

  // ---------------------------------------------------------------- a live run establishes Synced

  lemma PageStepEstablishes(db: Db, chapterId: nat, p: string)
    ensures PageSynced(PageStep(db, chapterId, p, false), chapterId, p)
  {
    if PageNumber(p).Some? {
      var n := PageNumber(p).value;
      var r := PageStep(db, chapterId, p, false);
      match PageByKey(db, chapterId, n)
      case None =>
        PageIndexAppend(db.pages, Page(chapterId, n, p, None, None), chapterId, n);
      case Some(i) =>
        PageIndexSame(db.pages, r.pages, chapterId, n);
    }
  }

  /** Processing page p keeps the page row of any other file q of the same
      chapter, as long as the two files carry different page numbers. */
  lemma PageStepKeepsOther(db: Db, chapterId: nat, p: string, q: string)
    requires PageSynced(db, chapterId, q)
    requires PageNumber(q).Some? && PageNumber(q) == PageNumber(p) ==> p == q
    ensures PageSynced(PageStep(db, chapterId, p, false), chapterId, q)
  {
    if p == q {
      PageStepEstablishes(db, chapterId, p);
    } else {
      PageStepAtKeepsOther(db, chapterId, PageNumber(p), p, PageNumber(q), q);
    }
  }

  lemma PageStepAtKeepsOther(db: Db, chapterId: nat, np: Option<nat>, p: string, nq: Option<nat>, q: string)
    requires PageSyncedAt(db, chapterId, nq, q) && (nq.Some? ==> np != nq)
    ensures PageSyncedAt(PageStepAt(db, chapterId, np, p, false), chapterId, nq, q)
  {
    if nq.Some? {
      var r := PageStepAt(db, chapterId, np, p, false);
      PageStepAtGrows(db, chapterId, np, p, false);
      PageByKeyStable(db, r, chapterId, nq.value);
    }
  }

  lemma {:induction false} PagesFoldEstablishes(db: Db, chapterId: nat, ps: seq<string>)
    requires PageNumbersDistinct(ps)
    ensures forall q :: q in ps ==> PageSynced(PagesFold(db, chapterId, ps, false), chapterId, q)
  {
    if ps != [] {
      var init, last := ps[..|ps| - 1], ps[|ps| - 1];
      assert forall q :: q in init ==> q in ps;
      var mid := PagesFold(db, chapterId, init, false);
      PagesFoldEstablishes(db, chapterId, init);
      forall q | q in ps ensures PageSynced(PageStep(mid, chapterId, last, false), chapterId, q) {
        if q == last {
          PageStepEstablishes(mid, chapterId, last);
        } else {
          assert q in init;
          PageStepKeepsOther(mid, chapterId, last, q);
        }
      }
    }
  }

  lemma ChapterStepEstablishes(db: Db, comicId: nat, d: ChapterDir)
    requires PageNumbersDistinct(d.files)
    ensures ChapterSynced(ChapterStep(db, comicId, d, false), comicId, d)
  {
    PageOrderDistinct(d.files);
    ChapterStepAtEstablishes(db, comicId, ChapterNumber(d), ChapterTitle(d), PageOrder(d.files));
  }

  lemma PageOrderDistinct(files: seq<string>)
    requires PageNumbersDistinct(files)
    ensures PageNumbersDistinct(PageOrder(files))
  {
  }

  lemma ChapterStepAtEstablishes(db: Db, comicId: nat, num: Option<nat>, title: Option<string>, ps: seq<string>)
    requires PageNumbersDistinct(ps)
    ensures ChapterSyncedAt(ChapterStepAt(db, comicId, num, title, ps, false), comicId, num, ps)
  {
    if num.Some? {
      var chapter := ChapterFirstOrCreate(db, comicId, num.value, title);
      ChapterPagesEstablish(chapter.0, chapter.1, comicId, num.value, ps);
    }
  }

  /** Folding the pages into the chapter row found or created for (comicId, n)
      syncs that chapter with those pages. */
  lemma ChapterPagesEstablish(c: Db, chapterId: nat, comicId: nat, n: nat, ps: seq<string>)
    requires PageNumbersDistinct(ps)
    requires chapterId >= 1 && ChapterByKey(c, comicId, n) == Some(chapterId - 1)
    ensures ChapterSyncedAt(PagesFold(c, chapterId, ps, false), comicId, Some(n), ps)
  {
    PagesFoldKeepsChapter(c, chapterId, comicId, n, ps);
    PagesFoldSyncsAll(c, chapterId, ps);
  }

  lemma PagesFoldSyncsAll(c: Db, chapterId: nat, ps: seq<string>)
    requires PageNumbersDistinct(ps)
    ensures PagesSynced(PagesFold(c, chapterId, ps, false), chapterId, ps)
  {
    PagesFoldEstablishes(c, chapterId, ps);
    PagesSyncedOfAll(PagesFold(c, chapterId, ps, false), chapterId, ps);
  }

  /** Folding pages finds every chapter row where it was. */
  lemma PagesFoldKeepsChapter(c: Db, chapterId: nat, comicId: nat, n: nat, ps: seq<string>)
    requires ChapterByKey(c, comicId, n).Some?
    ensures ChapterByKey(PagesFold(c, chapterId, ps, false), comicId, n) == ChapterByKey(c, comicId, n)
  {
    PagesFoldGrows(c, chapterId, ps, false);
    ChapterByKeyStable(c, PagesFold(c, chapterId, ps, false), comicId, n);
  }

  lemma {:induction false} ChaptersFoldEstablishes(db: Db, comicId: nat, ds: seq<ChapterDir>)
    requires ChapterNumbersDistinct(ds)
    requires forall d :: d in ds ==> PageNumbersDistinct(d.files)
    ensures forall e :: e in ds ==> ChapterSynced(ChaptersFold(db, comicId, ds, false), comicId, e)
  {
    if ds != [] {
      var init, last := ds[..|ds| - 1], ds[|ds| - 1];
      assert forall e :: e in init ==> e in ds;
      var mid := ChaptersFold(db, comicId, init, false);
      ChaptersFoldEstablishes(db, comicId, init);
      forall e | e in ds ensures ChapterSynced(ChapterStep(mid, comicId, last, false), comicId, e) {
        if e == last {
          ChapterStepEstablishes(mid, comicId, last);
        } else {
          assert e in init;
          ChapterStepKeepsOther(mid, comicId, last, e);
        }
      }
    }
  }

  /** Processing chapter directory d keeps any other directory e of the same
      comic synced, as long as the two carry different chapter numbers. */
  lemma ChapterStepKeepsOther(db: Db, comicId: nat, d: ChapterDir, e: ChapterDir)
    requires ChapterSynced(db, comicId, e)
    requires ChapterNumber(e).Some? ==> ChapterNumber(d) != ChapterNumber(e)
    ensures ChapterSynced(ChapterStep(db, comicId, d, false), comicId, e)
  {
    ChapterStepAtKeepsOther(db, comicId, ChapterNumber(d), ChapterTitle(d), PageOrder(d.files), ChapterNumber(e), PageOrder(e.files));
  }

  lemma ChapterStepAtKeepsOther(db: Db, comicId: nat, nd: Option<nat>, td: Option<string>, psd: seq<string>,
                                ne: Option<nat>, pse: seq<string>)
    requires ChapterSyncedAt(db, comicId, ne, pse) && (ne.Some? ==> nd != ne)
    ensures ChapterSyncedAt(ChapterStepAt(db, comicId, nd, td, psd, false), comicId, ne, pse)
  {
    var r := ChapterStepAt(db, comicId, nd, td, psd, false);
    var ids := ChapterStepIds(db, comicId, nd, td);
    ChapterStepGrows(db, comicId, nd, td, psd, false);
    if ne.Some? {
      var idx := ChapterSyncedRow(db, comicId, ne, pse);
      assert r.chapters[idx] == db.chapters[idx];
    }
    ChapterSyncedKept(db, r, {}, ids, comicId, ne, pse);
  }

  lemma CreatedWithCoverEstablishes(db: Db, genreId: nat, slug: string, objects: set<string>, fns: StrFns)
    requires Truthy(slug)
    ensures var db2 := CreatedWithCover(db, genreId, slug, objects, false, fns);
      var k := ComicStepRow(db, genreId, slug, fns);
      ComicBySlug(db2, slug) == Some(k) && CoverSynced(db2, k, slug, objects)
  {
    var created := ComicFirstOrCreate(db, slug, TitleFromSlug(slug, fns), genreId, fns);
    var k := created.1 - 1;
    CoverStepGrows(created.0, k, slug, objects, false);
    ComicBySlugStable(created.0, CreatedWithCover(db, genreId, slug, objects, false, fns), slug);
  }

  lemma ChapterOrderDistinct(ds: seq<ChapterDir>)
    requires ChapterNumbersDistinct(ds)
    requires forall d :: d in ds ==> PageNumbersDistinct(d.files)
    ensures ChapterNumbersDistinct(ChapterOrder(ds))
    ensures forall d :: d in ChapterOrder(ds) ==> PageNumbersDistinct(d.files)
  {
  }

  /** Once the comic row carries its cover, processing its chapter
      directories makes the whole comic Synced. */
  lemma ChaptersFoldCompletesComic(db: Db, slug: string, ds: seq<ChapterDir>, objects: set<string>, k: nat)
    requires ComicBySlug(db, slug) == Some(k) && CoverSynced(db, k, slug, objects)
    requires ChapterNumbersDistinct(ds)
    requires forall d :: d in ds ==> PageNumbersDistinct(d.files)
    ensures ComicSyncedAt(ChaptersFold(db, k + 1, ds, false), slug, ds, objects)
  {
    ChaptersFoldGrows(db, k + 1, ds, false);
    ChaptersFoldSyncs(db, k + 1, ds);
    ComicSyncedAfterChapters(db, ChaptersFold(db, k + 1, ds, false), slug, ds, objects, k);
  }

  lemma ComicSyncedAfterChapters(db: Db, r: Db, slug: string, ds: seq<ChapterDir>, objects: set<string>, k: nat)
    requires ComicBySlug(db, slug) == Some(k) && CoverSynced(db, k, slug, objects)
    requires Grows(db, r, {}, ChapterIdsOf(r, k + 1)) && ChaptersSynced(r, k + 1, ds)
    ensures ComicSyncedAt(r, slug, ds, objects)
  {
    ComicRowKept(db, r, slug, objects, k, ChapterIdsOf(r, k + 1));
    ComicSyncedAtOf(r, slug, ds, objects, k);
  }

  /** Growing the catalogue without touching cover k keeps comic row k found
      by its slug and its cover synced. */
  lemma ComicRowKept(db: Db, r: Db, slug: string, objects: set<string>, k: nat, ids: set<nat>)
    requires ComicBySlug(db, slug) == Some(k) && CoverSynced(db, k, slug, objects) && Grows(db, r, {}, ids)
    ensures ComicBySlug(r, slug) == Some(k) && k < |r.comics| && CoverSynced(r, k, slug, objects)
  {
    ComicBySlugStable(db, r, slug);
    CoverSyncedKept(db, r, {}, ids, k, slug, objects);
  }

  lemma ComicSyncedAtOf(r: Db, slug: string, ds: seq<ChapterDir>, objects: set<string>, k: nat)
    requires ComicBySlug(r, slug) == Some(k) && k < |r.comics| && CoverSynced(r, k, slug, objects)
    requires ChaptersSynced(r, k + 1, ds)
    ensures ComicSyncedAt(r, slug, ds, objects)
  {
    assert ComicBySlug(r, slug).value + 1 == k + 1;
  }

  lemma ChaptersFoldSyncs(db: Db, comicId: nat, ds: seq<ChapterDir>)
    requires ChapterNumbersDistinct(ds)
    requires forall d :: d in ds ==> PageNumbersDistinct(d.files)
    ensures ChaptersSynced(ChaptersFold(db, comicId, ds, false), comicId, ds)
  {
    ChaptersFoldEstablishes(db, comicId, ds);
    ChaptersSyncedOfAll(ChaptersFold(db, comicId, ds, false), comicId, ds);
  }

  lemma ComicStepEstablishes(db: Db, genreId: nat, c: ComicDir, objects: set<string>, fns: StrFns)
    requires Truthy(Basename(c.path))
    requires ChapterNumbersDistinct(c.chapters)
    requires forall d :: d in c.chapters ==> PageNumbersDistinct(d.files)
    ensures ComicSynced(ComicStep(db, genreId, c, objects, false, fns), c, objects)
  {
    ChapterOrderDistinct(c.chapters);
    ComicStepAtEstablishes(db, genreId, Basename(c.path), ChapterOrder(c.chapters), objects, fns);
  }

  lemma ComicStepAtEstablishes(db: Db, genreId: nat, slug: string, ds: seq<ChapterDir>, objects: set<string>, fns: StrFns)
    requires Truthy(slug) && ChapterNumbersDistinct(ds)
    requires forall d :: d in ds ==> PageNumbersDistinct(d.files)
    ensures ComicSyncedAt(ComicStepAt(db, genreId, slug, ds, objects, false, fns), slug, ds, objects)
  {
    var k := ComicStepRow(db, genreId, slug, fns);
    var db2 := CreatedWithCover(db, genreId, slug, objects, false, fns);
    assert ChaptersFold(db2, k + 1, ds, false) == ComicStepAt(db, genreId, slug, ds, objects, false, fns);
    CreatedWithCoverEstablishes(db, genreId, slug, objects, fns);
    ChaptersFoldCompletesComic(db2, slug, ds, objects, k);
  }

  /** Chapters that belong to comic k + 1 after a step never belonged to
      another comic before it: chapter rows are only appended. */
  lemma OtherComicChapters(db: Db, r: Db, rows: set<nat>, ids: set<nat>, k: nat, kc: nat)
    requires ids == ChapterIdsOf(r, k + 1) && Grows(db, r, rows, ids) && k != kc
    ensures forall ch :: ch in ids ==> !InComic(db, ch, kc + 1)
  {
    forall ch | ch in ids ensures !InComic(db, ch, kc + 1) {
      if 1 <= ch <= |db.chapters| {
        assert db.chapters[ch - 1] == r.chapters[ch - 1];
      }
    }
  }

  /** Processing one comic directory keeps every other comic Synced. */
  lemma ComicStepKeepsOther(db: Db, genreId: nat, last: ComicDir, c: ComicDir, objects: set<string>, fns: StrFns)
    requires ComicSynced(db, c, objects)
    requires Truthy(Basename(last.path)) && Basename(c.path) != Basename(last.path)
    ensures ComicSynced(ComicStep(db, genreId, last, objects, false, fns), c, objects)
  {
    ComicStepAtKeepsOther(db, genreId, Basename(last.path), ChapterOrder(last.chapters),
                          Basename(c.path), ChapterOrder(c.chapters), objects, fns);
  }

  lemma ComicStepAtKeepsOther(db: Db, genreId: nat, slug: string, ds: seq<ChapterDir>,
                              other: string, otherDs: seq<ChapterDir>, objects: set<string>, fns: StrFns)
    requires ComicSyncedAt(db, other, otherDs, objects) && Truthy(slug) && other != slug
    ensures ComicSyncedAt(ComicStepAt(db, genreId, slug, ds, objects, false, fns), other, otherDs, objects)
  {
    var r := ComicStepAt(db, genreId, slug, ds, objects, false, fns);
    var k := ComicStepRow(db, genreId, slug, fns);
    var kc := ComicSyncedRow(db, other, otherDs, objects);
    ComicStepGrows(db, genreId, slug, ds, objects, false, fns);
    assert db.comics[kc].slug == other;
    assert r.comics[kc].slug == other;
    OtherComicChapters(db, r, {k}, ChapterIdsOf(r, k + 1), k, kc);
    ComicSyncedKept(db, r, {k}, ChapterIdsOf(r, k + 1), other, otherDs, objects, kc);
  }

  lemma {:induction false} ComicsFoldEstablishes(db: Db, genreId: nat, cs: seq<ComicDir>, objects: set<string>, fns: StrFns)
    requires WellFormed(BlobDisk(true, cs, objects))
    ensures forall c :: c in cs ==> ComicSynced(ComicsFold(db, genreId, cs, objects, false, fns), c, objects)
  {
    if cs != [] {
      var init, last := cs[..|cs| - 1], cs[|cs| - 1];
      assert forall c :: c in init ==> c in cs;
      assert WellFormed(BlobDisk(true, init, objects));
      var mid := ComicsFold(db, genreId, init, objects, false, fns);
      ComicsFoldEstablishes(db, genreId, init, objects, fns);
      forall c | c in cs ensures ComicSynced(ComicStep(mid, genreId, last, objects, false, fns), c, objects) {
        if c == last {
          ComicStepEstablishes(mid, genreId, last, objects, fns);
        } else {
          assert c in init;
          ComicStepKeepsOther(mid, genreId, last, c, objects, fns);
        }
      }
    }
  }

  /** After a live run over a well-formed tree the catalogue is Synced with it. */
  lemma RunEstablishes(db: Db, disk: BlobDisk, fns: StrFns)
    requires disk.hasComics && WellFormed(disk)
    ensures Synced(Run(db, disk, false, fns).1, disk)
  {
    var genre := GenreFirstOrCreate(db, DefaultGenreSlug, DefaultGenreName);
    var r := ComicsFold(genre.0, genre.1, disk.comics, disk.objects, false, fns);
    ComicsFoldGrows(genre.0, genre.1, disk.comics, disk.objects, false, fns);
    ComicsFoldEstablishes(genre.0, genre.1, disk.comics, disk.objects, fns);
  }

  /** Running the command a second time on the same tree, live or dry, changes
      nothing and issues no INSERT or UPDATE: the keyed upserts are idempotent. */
  lemma RerunWritesNothing(db: Db, disk: BlobDisk, dryRun: bool, fns: StrFns)
    requires WellFormed(disk)
    ensures var first := Run(db, disk, false, fns);
      Run(first.1, disk, dryRun, fns) == first
  {
    if disk.hasComics {
      RunEstablishes(db, disk, fns);
      RunOnSynced(Run(db, disk, false, fns).1, disk, dryRun, fns);
    }
  }
}
