/** `az:sync-from-storage` (app/Console/Commands/SyncFromAzureStorage.php): walk
    the blob tree comics/{slug}/chapterN/pageM.* and make the catalogue match it.
    The specification is a left fold of one step per comic, per chapter
    directory and per page file; `Handle` is the command's nested loop, proved
    to compute that fold. */
module SyncFromAzure {
  import opened Text
  import opened Seqs
  import opened Catalog
  import opened ComicModel

  /** A chapter directory: its path and the paths of its files, in listing order. */
  datatype ChapterDir = ChapterDir(path: string, files: seq<string>)

  /** A comic directory comics/{slug}: its path and its subdirectories. */
  datatype ComicDir = ComicDir(path: string, chapters: seq<ChapterDir>)

  /** The `azure` disk: whether `comics` exists, the directories under it, and
      the set of every stored object path (what `exists` answers). */
  datatype BlobDisk = BlobDisk(hasComics: bool, comics: seq<ComicDir>, objects: set<string>)

  // ---------------------------------------------------------------- names to numbers

  /** preg_match('/chapter(\d+)/', basename($dir)): the captured digits. */
  function ChapterCapture(d: ChapterDir): Option<string>
  {
    CaptureAfter(Basename(d.path), "chapter")
  }

  /** preg_match('/page(\d+)/', basename($file)): the captured digits. */
  function PageCapture(path: string): Option<string>
  {
    CaptureAfter(Basename(path), "page")
  }

  /** `$n = $matches[1] ?? null; if (!$n) continue;`: the number a capture
      stands for, or None when the entry is skipped. Only a missing match and
      the single falsy string "0" are skipped; "00" still yields 0. */
  function UsableNumber(cap: Option<string>): (r: Option<nat>)
    requires cap.Some? ==> AllDigits(cap.value) && |cap.value| >= 1
    ensures r.None? <==> cap.None? || cap.value == "0"
    ensures r.Some? ==> r.value == DigitsValue(cap.value)
  {
    if cap.None? || !Truthy(cap.value) then None else Some(DigitsValue(cap.value))
  }

  function ChapterNumber(d: ChapterDir): Option<nat> { UsableNumber(ChapterCapture(d)) }

  function PageNumber(path: string): Option<nat> { UsableNumber(PageCapture(path)) }

  /** The sortBy key `$matches[1] ?? 0`. */
  function CaptureKey(cap: Option<string>): int
    requires cap.Some? ==> AllDigits(cap.value)
  {
    match cap
    case None => 0
    case Some(s) => DigitsValue(s)
  }

  function ChapterKey(d: ChapterDir): int { CaptureKey(ChapterCapture(d)) }

  function PageKey(path: string): int { CaptureKey(PageCapture(path)) }

  predicate IsChapterDir(d: ChapterDir) { Contains(Basename(d.path), "chapter") }

  predicate IsPageFile(path: string) { Contains(Basename(path), "page") }

  // ---------------------------------------------------------------- the order of the walk

  /** Collection::filter on the directories whose basename contains "chapter". */
  function ChapterDirs(ds: seq<ChapterDir>): (r: seq<ChapterDir>)
    ensures forall d :: d in r <==> d in ds && IsChapterDir(d)
  {
    if ds == [] then []
    else
      var init := ChapterDirs(ds[..|ds| - 1]);
      assert ds == ds[..|ds| - 1] + [ds[|ds| - 1]];
      if IsChapterDir(ds[|ds| - 1]) then init + [ds[|ds| - 1]] else init
  }

  /** One step of the stable sortBy on the chapter key: d goes after every
      directory whose key is not larger. */
  function InsertChapterDir(d: ChapterDir, s: seq<ChapterDir>): seq<ChapterDir>
  {
    if s == [] then [d]
    else if ChapterKey(s[|s| - 1]) <= ChapterKey(d) then s + [d]
    else
      InsertChapterDir(d, s[..|s| - 1]) + [s[|s| - 1]]
  }

  /** sortBy(fn ($d) => $matches[1] ?? 0) on chapter directories. */
  function SortChapterDirs(s: seq<ChapterDir>): seq<ChapterDir>
  {
    if s == [] then []
    else InsertChapterDir(s[|s| - 1], SortChapterDirs(s[..|s| - 1]))
  }

  /** The chapter directories in the order they are visited. */
  function ChapterOrder(ds: seq<ChapterDir>): (r: seq<ChapterDir>)
    ensures forall d :: d in r <==> d in ds && IsChapterDir(d)
  {
    var f := ChapterDirs(ds);
    var r := SortChapterDirs(f);
    SortChapterDirsIsSortBy(f);
    assert forall d :: d in r <==> d in multiset(f);
    r
  }

  /** Collection::filter on the files whose basename contains "page". */
  function PageFiles(files: seq<string>): (r: seq<string>)
    ensures forall p :: p in r <==> p in files && IsPageFile(p)
  {
    if files == [] then []
    else
      var init := PageFiles(files[..|files| - 1]);
      assert files == files[..|files| - 1] + [files[|files| - 1]];
      if IsPageFile(files[|files| - 1]) then init + [files[|files| - 1]] else init
  }

  /** One step of the stable sortBy on the page key. */
  function InsertPageFile(p: string, s: seq<string>): seq<string>
  {
    if s == [] then [p]
    else if PageKey(s[|s| - 1]) <= PageKey(p) then s + [p]
    else
      InsertPageFile(p, s[..|s| - 1]) + [s[|s| - 1]]
  }

  /** sortBy(fn ($f) => $matches[1] ?? 0) on page files. */
  function SortPageFiles(s: seq<string>): seq<string>
  {
    if s == [] then []
    else InsertPageFile(s[|s| - 1], SortPageFiles(s[..|s| - 1]))
  }

  /** The page files of a chapter directory in the order they are visited. */
  function PageOrder(files: seq<string>): (r: seq<string>)
    ensures forall p :: p in r <==> p in files && IsPageFile(p)
  {
    var f := PageFiles(files);
    var r := SortPageFiles(f);
    SortPageFilesIsSortBy(f);
    assert forall p :: p in r <==> p in multiset(f);
    r
  }

  // the walk's order is Collection::filter followed by the stable sortBy

  lemma {:induction false} ChapterDirsIsFilter(ds: seq<ChapterDir>)
    ensures ChapterDirs(ds) == Filter(ds, IsChapterDir)
  {
    if ds != [] {
      ChapterDirsIsFilter(ds[..|ds| - 1]);
    }
  }

  lemma {:induction false} InsertChapterDirIsInsert(d: ChapterDir, s: seq<ChapterDir>)
    ensures InsertChapterDir(d, s) == Insert(d, s, ByKey(ChapterKey))
  {
    if s != [] && ChapterKey(s[|s| - 1]) > ChapterKey(d) {
      InsertChapterDirIsInsert(d, s[..|s| - 1]);
    }
  }

  lemma {:induction false} SortChapterDirsIsSortBy(s: seq<ChapterDir>)
    ensures SortChapterDirs(s) == SortBy(s, ByKey(ChapterKey))
  {
    if s != [] {
      SortChapterDirsIsSortBy(s[..|s| - 1]);
      InsertChapterDirIsInsert(s[|s| - 1], SortChapterDirs(s[..|s| - 1]));
    }
  }

  lemma {:induction false} PageFilesIsFilter(files: seq<string>)
    ensures PageFiles(files) == Filter(files, IsPageFile)
  {
    if files != [] {
      PageFilesIsFilter(files[..|files| - 1]);
    }
  }

  lemma {:induction false} InsertPageFileIsInsert(p: string, s: seq<string>)
    ensures InsertPageFile(p, s) == Insert(p, s, ByKey(PageKey))
  {
    if s != [] && PageKey(s[|s| - 1]) > PageKey(p) {
      InsertPageFileIsInsert(p, s[..|s| - 1]);
    }
  }

  lemma {:induction false} SortPageFilesIsSortBy(s: seq<string>)
    ensures SortPageFiles(s) == SortBy(s, ByKey(PageKey))
  {
    if s != [] {
      SortPageFilesIsSortBy(s[..|s| - 1]);
      InsertPageFileIsInsert(s[|s| - 1], SortPageFiles(s[..|s| - 1]));
    }
  }

  /** Only directories whose name contains "chapter" are visited, each once, in
      ascending order of the number after "chapter" (0 when there is none). */
  lemma ChapterOrderAscending(ds: seq<ChapterDir>)
    ensures var r := ChapterOrder(ds);
      multiset(r) == multiset(Filter(ds, IsChapterDir)) &&
      forall i, j :: 0 <= i < j < |r| ==> ChapterKey(r[i]) <= ChapterKey(r[j])
  {
    ChapterDirsIsFilter(ds);
    SortChapterDirsIsSortBy(ChapterDirs(ds));
    SortByKeyAscending(Filter(ds, IsChapterDir), ChapterKey);
  }

  /** Only files whose name contains "page" are visited, each once, in
      ascending order of the number after "page". */
  lemma PageOrderAscending(files: seq<string>)
    ensures var r := PageOrder(files);
      multiset(r) == multiset(Filter(files, IsPageFile)) &&
      forall i, j :: 0 <= i < j < |r| ==> PageKey(r[i]) <= PageKey(r[j])
  {
    PageFilesIsFilter(files);
    SortPageFilesIsSortBy(PageFiles(files));
    SortByKeyAscending(Filter(files, IsPageFile), PageKey);
  }

  // ---------------------------------------------------------------- cover lookup

  const CoverExtensions: seq<string> := ["jpg", "jpeg", "png", "gif", "webp"]

  function CoverPathFor(slug: string, ext: string): string
  {
    "images/covers/" + slug + "/cover." + ext
  }

  /** The first extension at position k or later whose cover object exists. */
  function CoverIndexFrom(slug: string, objects: set<string>, k: nat): (r: Option<nat>)
    requires k <= |CoverExtensions|
    ensures r.Some? ==> k <= r.value < |CoverExtensions| && CoverPathFor(slug, CoverExtensions[r.value]) in objects
    ensures r.Some? ==> forall j :: k <= j < r.value ==> CoverPathFor(slug, CoverExtensions[j]) !in objects
    ensures r.None? ==> forall j :: k <= j < |CoverExtensions| ==> CoverPathFor(slug, CoverExtensions[j]) !in objects
    decreases |CoverExtensions| - k
  {
    if k == |CoverExtensions| then None
    else if CoverPathFor(slug, CoverExtensions[k]) in objects then Some(k)
    else CoverIndexFrom(slug, objects, k + 1)
  }

  /** The first extension, in the fixed order jpg, jpeg, png, gif, webp, whose
      cover object exists. */
  function CoverIndex(slug: string, objects: set<string>): (r: Option<nat>)
    ensures r.Some? ==> r.value < |CoverExtensions| && CoverPathFor(slug, CoverExtensions[r.value]) in objects
    ensures r.Some? ==> forall k :: 0 <= k < r.value ==> CoverPathFor(slug, CoverExtensions[k]) !in objects
    ensures r.None? ==> forall k :: 0 <= k < |CoverExtensions| ==> CoverPathFor(slug, CoverExtensions[k]) !in objects
  {
    CoverIndexFrom(slug, objects, 0)
  }

  function CoverCandidate(slug: string, objects: set<string>): Option<string>
  {
    match CoverIndex(slug, objects)
    case None => None
    case Some(k) => Some(CoverPathFor(slug, CoverExtensions[k]))
  }

  // ---------------------------------------------------------------- one step each

  /** One page file of a chapter: skipped without a usable number; in dry-run
      nothing is written; otherwise the (chapter_id, page_number) row is created
      with this path, or its image_path is updated when it differs. */
  function PageStep(db: Db, chapterId: nat, path: string, dryRun: bool): Db
  {
    PageStepAt(db, chapterId, PageNumber(path), path, dryRun)
  }

  /** The page step once the file name has been read as page number `num`. */
  function PageStepAt(db: Db, chapterId: nat, num: Option<nat>, path: string, dryRun: bool): Db
  {
    match num
    case None => db
    case Some(n) =>
      if dryRun then db
      else match PageByKey(db, chapterId, n)
        case None => InsertPage(db, Page(chapterId, n, path, None, None))
        case Some(i) => SetPageImagePath(db, i, path)
  }

  function PagesFold(db: Db, chapterId: nat, ps: seq<string>, dryRun: bool): Db
  {
    if ps == [] then db
    else PageStep(PagesFold(db, chapterId, ps[..|ps| - 1], dryRun), chapterId, ps[|ps| - 1], dryRun)
  }

  /** The title a new chapter gets: "Chapter " followed by the captured digits. */
  function ChapterTitle(d: ChapterDir): Option<string>
  {
    match ChapterCapture(d)
    case None => None
    case Some(s) => Some("Chapter " + s)
  }

  /** One chapter directory: skipped without a usable number; otherwise the
      (comic_id, number) chapter is found or created, even in dry-run, and its
      page files are processed. */
  function ChapterStep(db: Db, comicId: nat, d: ChapterDir, dryRun: bool): Db
  {
    ChapterStepAt(db, comicId, ChapterNumber(d), ChapterTitle(d), PageOrder(d.files), dryRun)
  }

  /** The chapter step once the directory name has been read as chapter number
      `num` with title `title`, and its page files put in the order `ps`. */
  function ChapterStepAt(db: Db, comicId: nat, num: Option<nat>, title: Option<string>, ps: seq<string>, dryRun: bool): Db
  {
    match num
    case None => db
    case Some(n) =>
      var chapter := ChapterFirstOrCreate(db, comicId, n, title);
      PagesFold(chapter.0, chapter.1, ps, dryRun)
  }

  function ChaptersFold(db: Db, comicId: nat, ds: seq<ChapterDir>, dryRun: bool): Db
  {
    if ds == [] then db
    else ChapterStep(ChaptersFold(db, comicId, ds[..|ds| - 1], dryRun), comicId, ds[|ds| - 1], dryRun)
  }

  /** The cover of comic row i: set to the first existing candidate unless in dry-run. */
  function CoverStep(db: Db, i: nat, slug: string, objects: set<string>, dryRun: bool): Db
    requires i < |db.comics|
  {
    match CoverCandidate(slug, objects)
    case None => db
    case Some(p) => if dryRun then db else SetComicCover(db, i, p)
  }

  /** The title of a comic created from its directory: dashes to spaces, title-cased. */
  function TitleFromSlug(slug: string, fns: StrFns): string
  {
    fns.title(ReplaceChar(slug, '-', ' '))
  }

  /** One comic directory: find or create the comic by slug (even in dry-run),
      then its cover, then its chapter directories. */
  function ComicStep(db: Db, genreId: nat, c: ComicDir, objects: set<string>, dryRun: bool, fns: StrFns): Db
  {
    ComicStepAt(db, genreId, Basename(c.path), ChapterOrder(c.chapters), objects, dryRun, fns)
  }

  /** The comic step once the directory name has been read as `slug` and its
      chapter directories put in the order `ds`. */
  function ComicStepAt(db: Db, genreId: nat, slug: string, ds: seq<ChapterDir>, objects: set<string>, dryRun: bool, fns: StrFns): Db
  {
    var created := ComicFirstOrCreate(db, slug, TitleFromSlug(slug, fns), genreId, fns);
    var comicId := created.1;
    ChaptersFold(CoverStep(created.0, comicId - 1, slug, objects, dryRun), comicId, ds, dryRun)
  }

  function ComicsFold(db: Db, genreId: nat, cs: seq<ComicDir>, objects: set<string>, dryRun: bool, fns: StrFns): Db
  {
    if cs == [] then db
    else ComicStep(ComicsFold(db, genreId, cs[..|cs| - 1], objects, dryRun, fns), genreId, cs[|cs| - 1], objects, dryRun, fns)
  }

  const DefaultGenreSlug := "uncategorized"
  const DefaultGenreName := "Uncategorized"

  /** The whole command: exit code 1 and no change without a `comics` directory;
      otherwise the default genre is found or created and every comic directory
      is processed in listing order. */
  function Run(db: Db, disk: BlobDisk, dryRun: bool, fns: StrFns): (r: (int, Db))
    ensures r.0 == 1 <==> !disk.hasComics
    ensures r.0 == 1 ==> r.1 == db
  {
    if !disk.hasComics then (1, db)
    else
      var genre := GenreFirstOrCreate(db, DefaultGenreSlug, DefaultGenreName);
      (0, ComicsFold(genre.0, genre.1, disk.comics, disk.objects, dryRun, fns))
  }

  // ---------------------------------------------------------------- single steps

  /** A chapter directory without a `chapter<digits>` match, or whose capture is
      "0", is skipped: no Chapter row, no page, no write. */
  lemma ChapterSkippedWithoutNumber(db: Db, comicId: nat, d: ChapterDir, dryRun: bool)
    requires ChapterCapture(d).None? || ChapterCapture(d) == Some("0")
    ensures ChapterStep(db, comicId, d, dryRun) == db
  {
  }

  /** A page file with a usable number: in dry-run nothing; otherwise a missing
      (chapter_id, page_number) row is inserted with the blob path, and an
      existing one gets that path, with an UPDATE only when the path differs. */
  lemma PageStepUpserts(db: Db, chapterId: nat, path: string, dryRun: bool)
    requires PageNumber(path).Some?
    ensures var r := PageStep(db, chapterId, path, dryRun);
      var n := PageNumber(path).value;
      (dryRun ==> r == db) &&
      (!dryRun && PageByKey(db, chapterId, n).None? ==>
         r.pages == db.pages + [Page(chapterId, n, path, None, None)] && r.writes == db.writes + 1) &&
      (!dryRun && PageByKey(db, chapterId, n).Some? ==>
         var i := PageByKey(db, chapterId, n).value;
         |r.pages| == |db.pages| && r.pages[i].imagePath == path &&
         (r.writes == db.writes <==> db.pages[i].imagePath == path))
  {
  }

  /** The cover: in dry-run, or with no candidate object, the row is left
      alone; otherwise cover_path becomes the first candidate, with an UPDATE
      only when it differs. */
  lemma CoverStepWritesOnChange(db: Db, i: nat, slug: string, objects: set<string>, dryRun: bool)
    requires i < |db.comics|
    ensures var r := CoverStep(db, i, slug, objects, dryRun);
      ((dryRun || CoverCandidate(slug, objects).None?) ==> r == db) &&
      (!dryRun && CoverCandidate(slug, objects).Some? ==>
         r.comics[i].coverPath == CoverCandidate(slug, objects) &&
         (r.writes == db.writes <==> db.comics[i].coverPath == CoverCandidate(slug, objects)))
  {
  }

  lemma {:induction false} PagesFoldKeepsComics(db: Db, chapterId: nat, ps: seq<string>, dryRun: bool)
    ensures PagesFold(db, chapterId, ps, dryRun).comics == db.comics
  {
    if ps != [] {
      PagesFoldKeepsComics(db, chapterId, ps[..|ps| - 1], dryRun);
    }
  }

  lemma {:induction false} ChaptersFoldKeepsComics(db: Db, comicId: nat, ds: seq<ChapterDir>, dryRun: bool)
    ensures ChaptersFold(db, comicId, ds, dryRun).comics == db.comics
  {
    if ds != [] {
      var mid := ChaptersFold(db, comicId, ds[..|ds| - 1], dryRun);
      ChaptersFoldKeepsComics(db, comicId, ds[..|ds| - 1], dryRun);
      var d := ds[|ds| - 1];
      if ChapterNumber(d).Some? {
        var chapter := ChapterFirstOrCreate(mid, comicId, ChapterNumber(d).value, ChapterTitle(d));
        PagesFoldKeepsComics(chapter.0, chapter.1, PageOrder(d.files), dryRun);
      }
    }
  }

  /** Comics are keyed by their directory's name: a new one is titled from
      that slug (dashes to spaces, title-cased), and an existing one keeps its
      title. */
  lemma ComicStepTitle(db: Db, genreId: nat, c: ComicDir, objects: set<string>, dryRun: bool, fns: StrFns)
    ensures var slug := Basename(c.path);
      var r := ComicStep(db, genreId, c, objects, dryRun, fns);
      (ComicBySlug(db, slug).None? ==>
         |r.comics| == |db.comics| + 1 && r.comics[|db.comics|].title == TitleFromSlug(slug, fns) &&
         (Truthy(slug) ==> r.comics[|db.comics|].slug == slug)) &&
      (ComicBySlug(db, slug).Some? ==>
         var i := ComicBySlug(db, slug).value;
         |r.comics| == |db.comics| && r.comics[i].title == db.comics[i].title && r.comics[i].slug == slug)
  {
    var slug := Basename(c.path);
    var created := ComicFirstOrCreate(db, slug, TitleFromSlug(slug, fns), genreId, fns);
    var covered := CoverStep(created.0, created.1 - 1, slug, objects, dryRun);
    var r := ChaptersFold(covered, created.1, ChapterOrder(c.chapters), dryRun);
    assert r == ComicStep(db, genreId, c, objects, dryRun, fns);
    ChaptersFoldKeepsComics(covered, created.1, ChapterOrder(c.chapters), dryRun);
    CoverStepKeepsTitles(created.0, created.1 - 1, slug, objects, dryRun);
  }

  /** The cover step changes no comic's slug or title. */
  lemma CoverStepKeepsTitles(db: Db, i: nat, slug: string, objects: set<string>, dryRun: bool)
    requires i < |db.comics|
    ensures var r := CoverStep(db, i, slug, objects, dryRun);
      |r.comics| == |db.comics| &&
      forall j :: 0 <= j < |db.comics| ==> r.comics[j].title == db.comics[j].title && r.comics[j].slug == db.comics[j].slug
  {
  }

  /** A comic directory whose slug has a row goes straight to its cover and chapters. */
  lemma ComicStepFound(db: Db, genreId: nat, c: ComicDir, objects: set<string>, dryRun: bool, fns: StrFns, k: nat)
    requires ComicBySlug(db, Basename(c.path)) == Some(k)
    ensures k < |db.comics|
    ensures ComicStep(db, genreId, c, objects, dryRun, fns) ==
      ChaptersFold(CoverStep(db, k, Basename(c.path), objects, dryRun), k + 1, ChapterOrder(c.chapters), dryRun)
  {
    var slug := Basename(c.path);
    var created := ComicFirstOrCreate(db, slug, TitleFromSlug(slug, fns), genreId, fns);
    assert created == (db, k + 1);
  }

  lemma ChapterStepWithoutNumber(db: Db, comicId: nat, d: ChapterDir, dryRun: bool)
    requires ChapterNumber(d).None?
    ensures ChapterStep(db, comicId, d, dryRun) == db
  {
  }

  /** A numbered chapter directory whose row exists goes straight to its page files. */
  lemma ChapterStepFound(db: Db, comicId: nat, d: ChapterDir, dryRun: bool, k: nat)
    requires ChapterNumber(d).Some? && ChapterByKey(db, comicId, ChapterNumber(d).value) == Some(k)
    ensures ChapterStep(db, comicId, d, dryRun) == PagesFold(db, k + 1, PageOrder(d.files), dryRun)
  {
    var chapter := ChapterFirstOrCreate(db, comicId, ChapterNumber(d).value, ChapterTitle(d));
    assert chapter == (db, k + 1);
  }

  // ---------------------------------------------------------------- the command

  lemma PagesFoldSnoc(db: Db, chapterId: nat, ps: seq<string>, m: nat, dryRun: bool)
    requires m < |ps|
    ensures PagesFold(db, chapterId, ps[..m + 1], dryRun) == PageStep(PagesFold(db, chapterId, ps[..m], dryRun), chapterId, ps[m], dryRun)
  {
    assert ps[..m + 1][..m] == ps[..m];
  }

  lemma ChaptersFoldSnoc(db: Db, comicId: nat, ds: seq<ChapterDir>, j: nat, dryRun: bool)
    requires j < |ds|
    ensures ChaptersFold(db, comicId, ds[..j + 1], dryRun) == ChapterStep(ChaptersFold(db, comicId, ds[..j], dryRun), comicId, ds[j], dryRun)
  {
    assert ds[..j + 1][..j] == ds[..j];
  }

  lemma ComicsFoldSnoc(db: Db, genreId: nat, cs: seq<ComicDir>, i: nat, objects: set<string>, dryRun: bool, fns: StrFns)
    requires i < |cs|
    ensures ComicsFold(db, genreId, cs[..i + 1], objects, dryRun, fns) == ComicStep(ComicsFold(db, genreId, cs[..i], objects, dryRun, fns), genreId, cs[i], objects, dryRun, fns)
  {
    assert cs[..i + 1][..i] == cs[..i];
  }

  /** The inner loop over a chapter directory's page files. */
  method SyncPages(db0: Db, chapterId: nat, pages: seq<string>, dryRun: bool) returns (db: Db)
    ensures db == PagesFold(db0, chapterId, pages, dryRun)
  {
    db := db0;
    var m := 0;
    while m < |pages|
      invariant 0 <= m <= |pages|
      invariant db == PagesFold(db0, chapterId, pages[..m], dryRun)
    {
      var path := pages[m];
      ghost var before := db;
      var pageNumber := PageNumber(path);
      if pageNumber.Some? && !dryRun {
        var existing := PageByKey(db, chapterId, pageNumber.value);
        if existing.None? {
          db := InsertPage(db, Page(chapterId, pageNumber.value, path, None, None));
        } else if db.pages[existing.value].imagePath != path {
          db := SetPageImagePath(db, existing.value, path);
        }
      }
      assert db == PageStep(before, chapterId, path, dryRun);
      PagesFoldSnoc(db0, chapterId, pages, m, dryRun);
      m := m + 1;
    }
    assert pages[..m] == pages;
  }

  /** The loop over a comic's chapter directories. */
  method SyncChapters(db0: Db, comicId: nat, chapters: seq<ChapterDir>, dryRun: bool) returns (db: Db)
    ensures db == ChaptersFold(db0, comicId, chapters, dryRun)
  {
    db := db0;
    var j := 0;
    while j < |chapters|
      invariant 0 <= j <= |chapters|
      invariant db == ChaptersFold(db0, comicId, chapters[..j], dryRun)
    {
      var d := chapters[j];
      ghost var before := db;
      var number := ChapterNumber(d);
      if number.Some? {
        var rch := ChapterFirstOrCreate(db, comicId, number.value, ChapterTitle(d));
        db := SyncPages(rch.0, rch.1, PageOrder(d.files), dryRun);
      }
      assert db == ChapterStep(before, comicId, d, dryRun);
      ChaptersFoldSnoc(db0, comicId, chapters, j, dryRun);
      j := j + 1;
    }
    assert chapters[..j] == chapters;
  }

  /** The loop over the cover candidates; the first existing one wins. */
  method SyncCover(db0: Db, i: nat, slug: string, objects: set<string>, dryRun: bool) returns (db: Db)
    requires i < |db0.comics|
    ensures db == CoverStep(db0, i, slug, objects, dryRun)
  {
    db := db0;
    var k := 0;
    while k < |CoverExtensions|
      invariant 0 <= k <= |CoverExtensions|
      invariant forall k' :: 0 <= k' < k ==> CoverPathFor(slug, CoverExtensions[k']) !in objects
      invariant db == db0
    {
      var full := CoverPathFor(slug, CoverExtensions[k]);
      if full in objects {
        assert CoverIndex(slug, objects) == Some(k);
        if !dryRun && db.comics[i].coverPath != Some(full) {
          db := SetComicCover(db, i, full);
        }
        return;
      }
      k := k + 1;
    }
  }

  /** The body of the loop over comic directories. */
  method SyncComic(db0: Db, genreId: nat, c: ComicDir, objects: set<string>, dryRun: bool, fns: StrFns) returns (db: Db)
    ensures db == ComicStep(db0, genreId, c, objects, dryRun, fns)
  {
    var slug := Basename(c.path);
    var ds := ChapterOrder(c.chapters);
    var rc := ComicFirstOrCreate(db0, slug, TitleFromSlug(slug, fns), genreId, fns);
    var comicId := rc.1;
    db := SyncCover(rc.0, comicId - 1, slug, objects, dryRun);
    db := SyncChapters(db, comicId, ds, dryRun);
    assert db == ComicStepAt(db0, genreId, slug, ds, objects, dryRun, fns);
  }

  /** handle(): the walk over the comic directories. */
  method Handle(db0: Db, disk: BlobDisk, dryRun: bool, fns: StrFns) returns (code: int, db: Db)
    ensures (code, db) == Run(db0, disk, dryRun, fns)
  {
    db := db0;
    if !disk.hasComics {
      return 1, db;
    }
    var g := GenreFirstOrCreate(db, DefaultGenreSlug, DefaultGenreName);
    db := g.0;
    var genreId := g.1;
    ghost var dbG := db;

    var i := 0;
    while i < |disk.comics|
      invariant 0 <= i <= |disk.comics|
      invariant db == ComicsFold(dbG, genreId, disk.comics[..i], disk.objects, dryRun, fns)
    {
      db := SyncComic(db, genreId, disk.comics[i], disk.objects, dryRun, fns);
      ComicsFoldSnoc(dbG, genreId, disk.comics, i, disk.objects, dryRun, fns);
      i := i + 1;
    }
    assert disk.comics[..i] == disk.comics;
    code := 0;
  }
}
