/** What `az:sync-from-storage --dry-run` still does. The dry run suppresses
    every Page write and every cover update, but the default genre, the comics
    and the chapters are still found or created: its catalogue has exactly the
    genre, comic and chapter rows a live run would make, only without covers,
    and its page table is untouched. */
module SyncFromAzureDryRun {
  import opened Text
  import opened Catalog
  import opened ComicModel
  import opened SyncFromAzure

  /** A comic row with its cover cleared. */
  function Bare(c: Comic): (r: Comic)
    ensures r.slug == c.slug && r.title == c.title && r.genreId == c.genreId && r.coverPath.None?
  {
    c.(coverPath := None)
  }

  /** Two catalogues with the same genres, chapters and comics, comics compared
      without their covers. */
  ghost predicate SameSkeleton(a: Db, b: Db)
  {
    a.genres == b.genres && a.chapters == b.chapters && |a.comics| == |b.comics| &&
    forall j :: 0 <= j < |a.comics| ==> Bare(a.comics[j]) == Bare(b.comics[j])
  }

  /** A dry run only appends genre, comic and chapter rows, appends comics
      without a cover, and leaves the pages as they were. */
  ghost predicate DryGrows(a: Db, b: Db)
  {
    a.genres <= b.genres && a.comics <= b.comics && a.chapters <= b.chapters && a.pages == b.pages &&
    forall j :: |a.comics| <= j < |b.comics| ==> b.comics[j].coverPath.None?
  }

  // ---------------------------------------------------------------- the page loop touches pages only

  lemma {:induction false} PagesFoldTouchesPagesOnly(db: Db, chapterId: nat, ps: seq<string>, dryRun: bool)
    ensures var r := PagesFold(db, chapterId, ps, dryRun);
      r == db.(pages := r.pages, writes := r.writes)
  {
    if ps != [] {
      PagesFoldTouchesPagesOnly(db, chapterId, ps[..|ps| - 1], dryRun);
    }
  }

  lemma {:induction false} PagesFoldDry(db: Db, chapterId: nat, ps: seq<string>)
    ensures PagesFold(db, chapterId, ps, true) == db
  {
    if ps != [] {
      PagesFoldDry(db, chapterId, ps[..|ps| - 1]);
    }
  }

  // ---------------------------------------------------------------- live and dry build the same skeleton

  lemma ChapterStepSkeleton(a: Db, b: Db, comicId: nat, d: ChapterDir, dryA: bool, dryB: bool)
    requires SameSkeleton(a, b)
    ensures SameSkeleton(ChapterStep(a, comicId, d, dryA), ChapterStep(b, comicId, d, dryB))
  {
    if ChapterNumber(d).Some? {
      var n := ChapterNumber(d).value;
      var ca := ChapterFirstOrCreate(a, comicId, n, ChapterTitle(d));
      var cb := ChapterFirstOrCreate(b, comicId, n, ChapterTitle(d));
      assert ca.1 == cb.1 && ca.0.chapters == cb.0.chapters;
      PagesFoldTouchesPagesOnly(ca.0, ca.1, PageOrder(d.files), dryA);
      PagesFoldTouchesPagesOnly(cb.0, cb.1, PageOrder(d.files), dryB);
    }
  }

  lemma {:induction false} ChaptersFoldSkeleton(a: Db, b: Db, comicId: nat, ds: seq<ChapterDir>, dryA: bool, dryB: bool)
    requires SameSkeleton(a, b)
    ensures SameSkeleton(ChaptersFold(a, comicId, ds, dryA), ChaptersFold(b, comicId, ds, dryB))
  {
    if ds != [] {
      var init := ds[..|ds| - 1];
      ChaptersFoldSkeleton(a, b, comicId, init, dryA, dryB);
      ChapterStepSkeleton(ChaptersFold(a, comicId, init, dryA), ChaptersFold(b, comicId, init, dryB),
                          comicId, ds[|ds| - 1], dryA, dryB);
    }
  }

  lemma CoverStepSkeleton(db: Db, i: nat, slug: string, objects: set<string>, dryRun: bool)
    requires i < |db.comics|
    ensures SameSkeleton(db, CoverStep(db, i, slug, objects, dryRun))
  {
  }

  lemma ComicFirstOrCreateSkeleton(a: Db, b: Db, slug: string, title: string, genreId: nat, fns: StrFns)
    requires SameSkeleton(a, b)
    ensures var ra := ComicFirstOrCreate(a, slug, title, genreId, fns);
      var rb := ComicFirstOrCreate(b, slug, title, genreId, fns);
      ra.1 == rb.1 && SameSkeleton(ra.0, rb.0)
  {
    assert forall j :: 0 <= j < |a.comics| ==> a.comics[j].slug == Bare(a.comics[j]).slug;
    assert forall j :: 0 <= j < |b.comics| ==> b.comics[j].slug == Bare(b.comics[j]).slug;
    ComicIndexSame(a.comics, b.comics, slug);
  }

  lemma CreatedWithCoverSkeleton(a: Db, b: Db, slug: string, title: string, genreId: nat, objects: set<string>,
                                 dryA: bool, dryB: bool, fns: StrFns)
    requires SameSkeleton(a, b)
    ensures var ca := ComicFirstOrCreate(a, slug, title, genreId, fns);
      var cb := ComicFirstOrCreate(b, slug, title, genreId, fns);
      ca.1 == cb.1 &&
      SameSkeleton(CoverStep(ca.0, ca.1 - 1, slug, objects, dryA), CoverStep(cb.0, cb.1 - 1, slug, objects, dryB))
  {
    var ca := ComicFirstOrCreate(a, slug, title, genreId, fns);
    var cb := ComicFirstOrCreate(b, slug, title, genreId, fns);
    ComicFirstOrCreateSkeleton(a, b, slug, title, genreId, fns);
    CoverStepsSkeleton(ca.0, cb.0, ca.1 - 1, slug, objects, dryA, dryB);
  }

  /** The cover step of a live and of a dry run keep two skeletons equal. */
  lemma CoverStepsSkeleton(x: Db, y: Db, i: nat, slug: string, objects: set<string>, dryA: bool, dryB: bool)
    requires SameSkeleton(x, y) && i < |x.comics|
    ensures SameSkeleton(CoverStep(x, i, slug, objects, dryA), CoverStep(y, i, slug, objects, dryB))
  {
    CoverStepSkeleton(x, i, slug, objects, dryA);
    CoverStepSkeleton(y, i, slug, objects, dryB);
    SameSkeletonChain(CoverStep(x, i, slug, objects, dryA), x, y, CoverStep(y, i, slug, objects, dryB));
  }

  /** Skeletons compare like equal values: a ~ b, a ~ c and c ~ d give b ~ d. */
  lemma SameSkeletonChain(b: Db, a: Db, c: Db, d: Db)
    requires SameSkeleton(a, b) && SameSkeleton(a, c) && SameSkeleton(c, d)
    ensures SameSkeleton(b, d)
  {
  }

  lemma ComicStepSkeleton(a: Db, b: Db, genreId: nat, c: ComicDir, objects: set<string>, dryA: bool, dryB: bool, fns: StrFns)
    requires SameSkeleton(a, b)
    ensures SameSkeleton(ComicStep(a, genreId, c, objects, dryA, fns), ComicStep(b, genreId, c, objects, dryB, fns))
  {
    ComicStepAtSkeleton(a, b, genreId, Basename(c.path), ChapterOrder(c.chapters), objects, dryA, dryB, fns);
  }

  lemma ComicStepAtSkeleton(a: Db, b: Db, genreId: nat, slug: string, ds: seq<ChapterDir>, objects: set<string>,
                            dryA: bool, dryB: bool, fns: StrFns)
    requires SameSkeleton(a, b)
    ensures SameSkeleton(ComicStepAt(a, genreId, slug, ds, objects, dryA, fns), ComicStepAt(b, genreId, slug, ds, objects, dryB, fns))
  {
    var title := TitleFromSlug(slug, fns);
    var ca := ComicFirstOrCreate(a, slug, title, genreId, fns);
    var cb := ComicFirstOrCreate(b, slug, title, genreId, fns);
    var xa := CoverStep(ca.0, ca.1 - 1, slug, objects, dryA);
    var xb := CoverStep(cb.0, cb.1 - 1, slug, objects, dryB);
    CreatedWithCoverSkeleton(a, b, slug, title, genreId, objects, dryA, dryB, fns);
    ChaptersFoldSkeleton(xa, xb, ca.1, ds, dryA, dryB);
  }

  lemma {:induction false} ComicsFoldSkeleton(a: Db, b: Db, genreId: nat, cs: seq<ComicDir>, objects: set<string>, dryA: bool, dryB: bool, fns: StrFns)
    requires SameSkeleton(a, b)
    ensures SameSkeleton(ComicsFold(a, genreId, cs, objects, dryA, fns), ComicsFold(b, genreId, cs, objects, dryB, fns))
  {
    if cs != [] {
      var init := cs[..|cs| - 1];
      ComicsFoldSkeleton(a, b, genreId, init, objects, dryA, dryB, fns);
      ComicStepSkeleton(ComicsFold(a, genreId, init, objects, dryA, fns), ComicsFold(b, genreId, init, objects, dryB, fns),
                        genreId, cs[|cs| - 1], objects, dryA, dryB, fns);
    }
  }

  /** A dry run creates the same genre, comic and chapter rows as a live run on
      the same catalogue and tree; the two catalogues differ only in covers,
      pages and the write count. */
  lemma DryRunSameSkeleton(db: Db, disk: BlobDisk, fns: StrFns)
    ensures SameSkeleton(Run(db, disk, true, fns).1, Run(db, disk, false, fns).1)
  {
    if disk.hasComics {
      var genre := GenreFirstOrCreate(db, DefaultGenreSlug, DefaultGenreName);
      ComicsFoldSkeleton(genre.0, genre.0, genre.1, disk.comics, disk.objects, true, false, fns);
    }
  }

  // ---------------------------------------------------------------- a dry run only appends

  lemma DryGrowsTrans(a: Db, b: Db, c: Db)
    requires DryGrows(a, b) && DryGrows(b, c)
    ensures DryGrows(a, c)
  {
  }

  lemma ChapterStepDry(db: Db, comicId: nat, d: ChapterDir)
    ensures DryGrows(db, ChapterStep(db, comicId, d, true))
  {
    if ChapterNumber(d).Some? {
      var chapter := ChapterFirstOrCreate(db, comicId, ChapterNumber(d).value, ChapterTitle(d));
      PagesFoldDry(chapter.0, chapter.1, PageOrder(d.files));
    }
  }

  lemma {:induction false} ChaptersFoldDry(db: Db, comicId: nat, ds: seq<ChapterDir>)
    ensures DryGrows(db, ChaptersFold(db, comicId, ds, true))
  {
    if ds != [] {
      var mid := ChaptersFold(db, comicId, ds[..|ds| - 1], true);
      ChaptersFoldDry(db, comicId, ds[..|ds| - 1]);
      ChapterStepDry(mid, comicId, ds[|ds| - 1]);
      DryGrowsTrans(db, mid, ChaptersFold(db, comicId, ds, true));
    }
  }

  lemma ComicStepDry(db: Db, genreId: nat, c: ComicDir, objects: set<string>, fns: StrFns)
    ensures DryGrows(db, ComicStep(db, genreId, c, objects, true, fns))
  {
    var slug := Basename(c.path);
    var created := ComicFirstOrCreate(db, slug, TitleFromSlug(slug, fns), genreId, fns);
    assert DryGrows(db, created.0);
    var db2 := CoverStep(created.0, created.1 - 1, slug, objects, true);
    assert db2 == created.0;
    ChaptersFoldDry(db2, created.1, ChapterOrder(c.chapters));
    DryGrowsTrans(db, db2, ComicStep(db, genreId, c, objects, true, fns));
  }

  lemma {:induction false} ComicsFoldDry(db: Db, genreId: nat, cs: seq<ComicDir>, objects: set<string>, fns: StrFns)
    ensures DryGrows(db, ComicsFold(db, genreId, cs, objects, true, fns))
  {
    if cs != [] {
      var mid := ComicsFold(db, genreId, cs[..|cs| - 1], objects, true, fns);
      ComicsFoldDry(db, genreId, cs[..|cs| - 1], objects, fns);
      ComicStepDry(mid, genreId, cs[|cs| - 1], objects, fns);
      DryGrowsTrans(db, mid, ComicsFold(db, genreId, cs, objects, true, fns));
    }
  }

  /** A dry run writes no Page and no cover: every existing genre, comic (cover
      included), chapter and page row is kept as it was, and comics it creates
      have no cover. */
  lemma DryRunKeepsPagesAndCovers(db: Db, disk: BlobDisk, fns: StrFns)
    ensures DryGrows(db, Run(db, disk, true, fns).1)
  {
    if disk.hasComics {
      var genre := GenreFirstOrCreate(db, DefaultGenreSlug, DefaultGenreName);
      assert DryGrows(db, genre.0);
      ComicsFoldDry(genre.0, genre.1, disk.comics, disk.objects, fns);
      DryGrowsTrans(db, genre.0, Run(db, disk, true, fns).1);
    }
  }
}
