/** `comics:import-local` (app/Console/Commands/ImportLocalComics.php): make sure
    the `manga` genre exists, then walk comics/{comic}/chapter-{n}/page-{m}.{ext}
    on the `public` disk and firstOrCreate a Comic per comic folder (by slug), a
    Chapter per `chapter-` folder (by comic and number) and a Page per `page-`
    file (by chapter and number). Nothing that already exists is ever changed. */
module ImportLocalComics {
  import opened Text
  import opened Seqs
  import opened Catalog
  import opened ComicModel

  // ---------------------------------------------------------------- the public disk

  /** A chapter folder: its path and the paths of the files in it, in listing order. */
  datatype ChapterFolder = ChapterFolder(path: string, files: seq<string>)

  /** A comic folder: its path and its sub-folders, in listing order. */
  datatype ComicFolder = ComicFolder(path: string, chapters: seq<ChapterFolder>)

  /** Whether `comics` exists on the disk, and its folders. */
  datatype PublicDisk = PublicDisk(hasComics: bool, comics: seq<ComicFolder>)

  const GenreSlug := "manga"
  const GenreName := "Manga"

  // ---------------------------------------------------------------- names

  /** The sub-folders whose basename starts with `chapter-`, in listing order. */
  function ChapterFolders(ds: seq<ChapterFolder>): seq<ChapterFolder>
  {
    if ds == [] then []
    else
      var rest := ChapterFolders(ds[..|ds| - 1]);
      if StartsWith(Basename(ds[|ds| - 1].path), "chapter-") then rest + [ds[|ds| - 1]] else rest
  }

  /** The chapter folders processed are exactly the sub-folders whose basename
      starts with `chapter-`. */
  lemma {:induction false} ChapterFoldersSelected(ds: seq<ChapterFolder>)
    ensures forall d :: d in ChapterFolders(ds) <==> d in ds && StartsWith(Basename(d.path), "chapter-")
  {
    if ds != [] {
      ChapterFoldersSelected(ds[..|ds| - 1]);
      assert ds == ds[..|ds| - 1] + [ds[|ds| - 1]];
    }
  }

  /** (int) Str::after(basename, 'chapter-'). */
  function ChapterNumberOf(path: string): int
  {
    IntCast(After(Basename(path), "chapter-"))
  }

  /** The files whose basename starts with `page-`, in listing order. */
  function PageFileNames(files: seq<string>): seq<string>
  {
    if files == [] then []
    else
      var rest := PageFileNames(files[..|files| - 1]);
      if StartsWith(Basename(files[|files| - 1]), "page-") then rest + [files[|files| - 1]] else rest
  }

  /** The files whose basename starts with `page-`, sorted as plain strings. */
  function PageFiles(files: seq<string>): seq<string>
  {
    SortBy(PageFileNames(files), StringOrder())
  }

  /** (int) Str::between(basename, 'page-', '.'). */
  function PageNumberOf(path: string): int
  {
    IntCast(Between(Basename(path), "page-", "."))
  }

  /** The title a new chapter gets: "Chapter {n}". */
  function ChapterTitle(n: int): Option<string>
  {
    Some("Chapter " + IntToString(n))
  }

  /** The title a new comic gets: the folder name with '-' as ' ', title-cased. */
  function ComicTitle(name: string, fns: StrFns): string
  {
    fns.title(ReplaceChar(name, '-', ' '))
  }

  lemma {:induction false} PageFileNamesSelected(files: seq<string>)
    ensures forall p :: p in PageFileNames(files) <==> p in files && StartsWith(Basename(p), "page-")
  {
    if files != [] {
      PageFileNamesSelected(files[..|files| - 1]);
      assert files == files[..|files| - 1] + [files[|files| - 1]];
    }
  }

  /** The pages processed are exactly the `page-` files. */
  lemma PageFilesSelected(files: seq<string>)
    ensures forall p :: p in PageFiles(files) <==> p in files && StartsWith(Basename(p), "page-")
  {
    PageFileNamesSelected(files);
    SortedStringsSameMembers(PageFileNames(files));
  }

  lemma SortedStringsSameMembers(s: seq<string>)
    ensures forall p :: p in SortBy(s, StringOrder()) <==> p in s
  {
    SortStringsAscending(s);
    forall p ensures p in SortBy(s, StringOrder()) <==> p in s {
      assert p in SortBy(s, StringOrder()) <==> p in multiset(SortBy(s, StringOrder()));
    }
  }

  /** The pages are processed each once, in ascending string order. */
  lemma PageFilesAscending(files: seq<string>)
    ensures var r := PageFiles(files);
      multiset(r) == multiset(PageFileNames(files)) &&
      forall i, j :: 0 <= i < j < |r| ==> LexLe(r[i], r[j])
  {
    SortStringsAscending(PageFileNames(files));
  }

  /** String order is not numeric order: page-10 is imported before page-2. */
  lemma PageTenBeforePageTwo()
    ensures LexLe("page-10.jpg", "page-2.jpg") && !LexLe("page-2.jpg", "page-10.jpg")
  {
  }

  /** A folder named chapter-<digits> has the number those digits spell. */
  lemma ChapterFolderNumber(dir: string, digits: string)
    requires AllDigits(digits)
    ensures ChapterNumberOf(dir + "/chapter-" + digits) == DigitsValue(digits)
  {
    var name := "chapter-" + digits;
    assert forall i :: 0 <= i < |name| ==> name[i] != '/';
    assert dir + "/chapter-" + digits == dir + "/" + name;
    BasenameOfJoin(dir, name);
    AfterPrefix("chapter-", digits);
    IntCastOfDigits(digits);
  }

  /** Between 'page-' and the last '.' of page-<digits>.<ext> are the digits. */
  lemma BetweenPageAndDot(digits: string, ext: string)
    requires AllDigits(digits) && '.' !in ext
    ensures Between("page-" + digits + "." + ext, "page-", ".") == digits
  {
    var rest := digits + "." + ext;
    assert "page-" + digits + "." + ext == "page-" + rest;
    AfterPrefix("page-", rest);
    assert forall j :: |digits| < j < |rest| ==> rest[j] != '.' by {
      forall j | |digits| < j < |rest| ensures rest[j] != '.' {
        assert rest[j] == ext[j - |digits| - 1];
      }
    }
    LastIndexOfChar(rest, '.', |digits|);
    assert rest[..|digits|] == digits;
  }

  /** A file named page-<digits>.<ext> has the number those digits spell and
      the extension ext. */
  lemma PageFileNumber(dir: string, digits: string, ext: string)
    requires AllDigits(digits)
    requires '/' !in ext && '.' !in ext
    ensures PageNumberOf(dir + "/page-" + digits + "." + ext) == DigitsValue(digits)
    ensures Extension(dir + "/page-" + digits + "." + ext) == ext
  {
    var path := dir + "/page-" + digits + "." + ext;
    var name := "page-" + digits + "." + ext;
    PageNameParts(digits, ext);
    assert path == dir + "/" + name;
    BasenameOfJoin(dir, name);
    BetweenPageAndDot(digits, ext);
    IntCastOfDigits(digits);
    ExtensionAfterLastDot(path, name, 5 + |digits|);
  }

  /** page-<digits>.<ext> has no '/', its last '.' right after the digits and
      the extension after it. */
  lemma PageNameParts(digits: string, ext: string)
    requires AllDigits(digits)
    requires '/' !in ext && '.' !in ext
    ensures var name := "page-" + digits + "." + ext;
      '/' !in name && name[5 + |digits|] == '.' && name[6 + |digits|..] == ext &&
      forall j :: 5 + |digits| < j < |name| ==> name[j] != '.'
  {
    var name := "page-" + digits + "." + ext;
    assert forall i :: 0 <= i < |name| ==> name[i] != '/';
    assert forall j :: 5 + |digits| < j < |name| ==> name[j] != '.' by {
      forall j | 5 + |digits| < j < |name| ensures name[j] != '.' {
        assert name[j] == ext[j - |digits| - 6];
      }
    }
    assert name[6 + |digits|..] == ext;
  }

  // ---------------------------------------------------------------- one step each

  /** Page::firstOrCreate(['chapter_id', 'number'], ['file_path', 'extension']):
      nothing when the (chapter, number) page exists, otherwise a new row with
      the file's path and extension. */
  function PageFirstOrCreate(db: Db, chapterId: nat, n: int, path: string, ext: string): (r: Db)
    ensures PageByKey(r, chapterId, n).Some?
    ensures PageByKey(db, chapterId, n).Some? ==> r == db
    ensures PageByKey(db, chapterId, n).None? ==>
      r.pages == db.pages + [Page(chapterId, n, path, None, Some(ext))] && r.writes == db.writes + 1
    ensures r == db.(pages := r.pages, writes := r.writes)
  {
    match PageByKey(db, chapterId, n)
    case Some(_) => db
    case None =>
      var p := Page(chapterId, n, path, None, Some(ext));
      PageIndexAppend(db.pages, p, chapterId, n);
      InsertPage(db, p)
  }

  // ---------------------------------------------------------------- the rows a folder asks for

  /** A `page-` file as the loop reads it: its number, its path and its extension. */
  datatype PageWork = PageWork(number: int, path: string, ext: string)

  /** A `chapter-` folder as the loop reads it: its number and its sorted `page-` files. */
  datatype ChapterWork = ChapterWork(number: int, pages: seq<PageWork>)

  /** A comic folder as the loop reads it: its slug, the title a new comic gets
      and its `chapter-` folders. */
  datatype ComicWork = ComicWork(slug: string, title: string, chapters: seq<ChapterWork>)

  function PageWorkOf(path: string): PageWork
  {
    PageWork(PageNumberOf(path), path, Extension(path))
  }

  function PageWorks(ps: seq<string>): (r: seq<PageWork>)
    ensures |r| == |ps|
  {
    if ps == [] then [] else PageWorks(ps[..|ps| - 1]) + [PageWorkOf(ps[|ps| - 1])]
  }

  function ChapterWorkOf(d: ChapterFolder): ChapterWork
  {
    ChapterWork(ChapterNumberOf(d.path), PageWorks(PageFiles(d.files)))
  }

  function ChapterWorks(ds: seq<ChapterFolder>): (r: seq<ChapterWork>)
    ensures |r| == |ds|
  {
    if ds == [] then [] else ChapterWorks(ds[..|ds| - 1]) + [ChapterWorkOf(ds[|ds| - 1])]
  }

  /** The comic is keyed by the slug of the folder name. */
  function ComicWorkOf(c: ComicFolder, fns: StrFns): ComicWork
  {
    var name := Basename(c.path);
    ComicWork(fns.slug(name), ComicTitle(name, fns), ChapterWorks(ChapterFolders(c.chapters)))
  }

  function ComicWorks(cs: seq<ComicFolder>, fns: StrFns): (r: seq<ComicWork>)
    ensures |r| == |cs|
  {
    if cs == [] then [] else ComicWorks(cs[..|cs| - 1], fns) + [ComicWorkOf(cs[|cs| - 1], fns)]
  }

  // ---------------------------------------------------------------- one step each

  function PageStep(db: Db, chapterId: nat, w: PageWork): Db
  {
    PageFirstOrCreate(db, chapterId, w.number, w.path, w.ext)
  }

  function PagesFold(db: Db, chapterId: nat, ws: seq<PageWork>): Db
  {
    if ws == [] then db else PageStep(PagesFold(db, chapterId, ws[..|ws| - 1]), chapterId, ws[|ws| - 1])
  }

  /** One chapter folder: its chapter, found or created, then its pages. */
  function ChapterStep(db: Db, comicId: nat, w: ChapterWork): Db
  {
    var chapter := ChapterFirstOrCreate(db, comicId, w.number, ChapterTitle(w.number));
    PagesFold(chapter.0, chapter.1, w.pages)
  }

  function ChaptersFold(db: Db, comicId: nat, ws: seq<ChapterWork>): Db
  {
    if ws == [] then db else ChapterStep(ChaptersFold(db, comicId, ws[..|ws| - 1]), comicId, ws[|ws| - 1])
  }

  /** One comic folder: its comic, found or created by slug, then its chapters. */
  function ComicStep(db: Db, genreId: nat, w: ComicWork, fns: StrFns): Db
  {
    var comic := ComicFirstOrCreate(db, w.slug, w.title, genreId, fns);
    ChaptersFold(comic.0, comic.1, w.chapters)
  }

  function ComicsFold(db: Db, genreId: nat, ws: seq<ComicWork>, fns: StrFns): Db
  {
    if ws == [] then db else ComicStep(ComicsFold(db, genreId, ws[..|ws| - 1], fns), genreId, ws[|ws| - 1], fns)
  }

  /** The whole command: the `manga` genre first, then exit code 1 when there is
      no `comics` folder, otherwise every comic folder in listing order and
      exit code 0. */
  function Run(db: Db, disk: PublicDisk, fns: StrFns): (r: (int, Db))
    ensures r.0 == (if disk.hasComics then 0 else 1)
  {
    var genre := GenreFirstOrCreate(db, GenreSlug, GenreName);
    if !disk.hasComics then (1, genre.0)
    else (0, ComicsFold(genre.0, genre.1, ComicWorks(disk.comics, fns), fns))
  }

  // ---------------------------------------------------------------- only appends

  /** b has every row of a, unchanged and at the same id, and perhaps more. */
  ghost predicate Grows(a: Db, b: Db)
  {
    a.genres <= b.genres && a.comics <= b.comics && a.chapters <= b.chapters &&
    a.pages <= b.pages && a.covers == b.covers && a.writes <= b.writes
  }

  lemma {:induction false} PagesFoldGrows(db: Db, chapterId: nat, ws: seq<PageWork>)
    ensures Grows(db, PagesFold(db, chapterId, ws))
    ensures PagesFold(db, chapterId, ws).chapters == db.chapters && PagesFold(db, chapterId, ws).comics == db.comics
  {
    if ws != [] {
      PagesFoldGrows(db, chapterId, ws[..|ws| - 1]);
    }
  }

  lemma ChapterStepGrows(db: Db, comicId: nat, w: ChapterWork)
    ensures Grows(db, ChapterStep(db, comicId, w)) && ChapterStep(db, comicId, w).comics == db.comics
  {
    var chapter := ChapterFirstOrCreate(db, comicId, w.number, ChapterTitle(w.number));
    PagesFoldGrows(chapter.0, chapter.1, w.pages);
  }

  lemma {:induction false} ChaptersFoldGrows(db: Db, comicId: nat, ws: seq<ChapterWork>)
    ensures Grows(db, ChaptersFold(db, comicId, ws)) && ChaptersFold(db, comicId, ws).comics == db.comics
  {
    if ws != [] {
      ChaptersFoldGrows(db, comicId, ws[..|ws| - 1]);
      ChapterStepGrows(ChaptersFold(db, comicId, ws[..|ws| - 1]), comicId, ws[|ws| - 1]);
    }
  }

  lemma ComicStepGrows(db: Db, genreId: nat, w: ComicWork, fns: StrFns)
    ensures Grows(db, ComicStep(db, genreId, w, fns))
  {
    var comic := ComicFirstOrCreate(db, w.slug, w.title, genreId, fns);
    ChaptersFoldGrows(comic.0, comic.1, w.chapters);
  }

  lemma {:induction false} ComicsFoldGrows(db: Db, genreId: nat, ws: seq<ComicWork>, fns: StrFns)
    ensures Grows(db, ComicsFold(db, genreId, ws, fns))
  {
    if ws != [] {
      ComicsFoldGrows(db, genreId, ws[..|ws| - 1], fns);
      ComicStepGrows(ComicsFold(db, genreId, ws[..|ws| - 1], fns), genreId, ws[|ws| - 1], fns);
    }
  }

  /** The import never updates or deletes a row: every genre, comic, chapter
      and page row that existed is still there, unchanged and at its id, and
      covers are not touched. */
  lemma RunOnlyAppends(db: Db, disk: PublicDisk, fns: StrFns)
    ensures Grows(db, Run(db, disk, fns).1)
  {
    var genre := GenreFirstOrCreate(db, GenreSlug, GenreName);
    if disk.hasComics {
      ComicsFoldGrows(genre.0, genre.1, ComicWorks(disk.comics, fns), fns);
    }
  }

  /** Without a `comics` folder the command still creates the `manga` genre when
      it is missing, and nothing else. */
  lemma MissingComicsFolder(db: Db, disk: PublicDisk, fns: StrFns)
    requires !disk.hasComics
    ensures var r := Run(db, disk, fns);
      r.0 == 1 && GenreBySlug(r.1, GenreSlug).Some? &&
      r.1.comics == db.comics && r.1.chapters == db.chapters && r.1.pages == db.pages && r.1.covers == db.covers &&
      (r.1.genres == db.genres || r.1.genres == db.genres + [Genre(GenreSlug, GenreName)])
  {
    var genre := GenreFirstOrCreate(db, GenreSlug, GenreName);
    assert Run(db, disk, fns) == (1, genre.0);
  }

  /** A comic whose slug is new is created with that slug, its title, the given
      genre and no cover, as the first new comic row. */
  lemma NewComicRow(db: Db, genreId: nat, w: ComicWork, fns: StrFns)
    requires Truthy(w.slug) && ComicBySlug(db, w.slug).None?
    ensures var r := ComicStep(db, genreId, w, fns);
      |db.comics| < |r.comics| && r.comics[|db.comics|] == Comic(w.slug, w.title, None, genreId)
  {
    var comic := ComicFirstOrCreate(db, w.slug, w.title, genreId, fns);
    ChaptersFoldGrows(comic.0, comic.1, w.chapters);
  }

  /** A comic folder whose slug is new creates a comic with that slug, the
      folder name made into a title, the given genre and no cover. */
  lemma ComicStepCreatesComic(db: Db, genreId: nat, c: ComicFolder, fns: StrFns)
    requires Truthy(fns.slug(Basename(c.path)))
    requires ComicBySlug(db, fns.slug(Basename(c.path))).None?
    ensures var r := ComicStep(db, genreId, ComicWorkOf(c, fns), fns);
      |db.comics| < |r.comics| &&
      r.comics[|db.comics|] == Comic(fns.slug(Basename(c.path)), ComicTitle(Basename(c.path), fns), None, genreId)
  {
    NewComicRow(db, genreId, ComicWorkOf(c, fns), fns);
  }

  /** A chapter folder whose (comic, number) is new creates the chapter titled
      "Chapter {n}". */
  lemma ChapterStepCreatesChapter(db: Db, comicId: nat, d: ChapterFolder)
    requires ChapterByKey(db, comicId, ChapterNumberOf(d.path)).None?
    ensures var r := ChapterStep(db, comicId, ChapterWorkOf(d));
      var n := ChapterNumberOf(d.path);
      |db.chapters| < |r.chapters| && r.chapters[|db.chapters|] == Chapter(comicId, n, Some("Chapter " + IntToString(n)))
  {
    var w := ChapterWorkOf(d);
    var chapter := ChapterFirstOrCreate(db, comicId, w.number, ChapterTitle(w.number));
    PagesFoldGrows(chapter.0, chapter.1, w.pages);
  }

  // ---------------------------------------------------------------- a second run creates nothing

  /** The chapter has a page for each of ws. */
  ghost predicate PagesSynced(db: Db, chapterId: nat, ws: seq<PageWork>)
  {
    ws == [] || (PagesSynced(db, chapterId, ws[..|ws| - 1]) && PageByKey(db, chapterId, ws[|ws| - 1].number).Some?)
  }

  /** The comic has the chapter w, and that chapter has each of w's pages. */
  ghost predicate ChapterSynced(db: Db, comicId: nat, w: ChapterWork)
  {
    ChapterByKey(db, comicId, w.number).Some? && PagesSynced(db, ChapterByKey(db, comicId, w.number).value + 1, w.pages)
  }

  ghost predicate ChaptersSynced(db: Db, comicId: nat, ws: seq<ChapterWork>)
  {
    ws == [] || (ChaptersSynced(db, comicId, ws[..|ws| - 1]) && ChapterSynced(db, comicId, ws[|ws| - 1]))
  }

  /** The comic with w's slug exists and has each of w's chapters. */
  ghost predicate ComicSynced(db: Db, w: ComicWork)
  {
    ComicBySlug(db, w.slug).Some? && ChaptersSynced(db, ComicBySlug(db, w.slug).value + 1, w.chapters)
  }

  ghost predicate ComicsSynced(db: Db, ws: seq<ComicWork>)
  {
    ws == [] || (ComicsSynced(db, ws[..|ws| - 1]) && ComicSynced(db, ws[|ws| - 1]))
  }

  /** Every row a walk of `disk` asks for is already in the catalogue. */
  ghost predicate Synced(db: Db, disk: PublicDisk, fns: StrFns)
  {
    GenreBySlug(db, GenreSlug).Some? && ComicsSynced(db, ComicWorks(disk.comics, fns))
  }

  // rows that are there stay there

  lemma {:induction false} PagesSyncedKept(a: Db, b: Db, chapterId: nat, ws: seq<PageWork>)
    requires Grows(a, b) && PagesSynced(a, chapterId, ws)
    ensures PagesSynced(b, chapterId, ws)
  {
    if ws != [] {
      PagesSyncedKept(a, b, chapterId, ws[..|ws| - 1]);
      assert forall j :: 0 <= j < |a.pages| ==> b.pages[j] == a.pages[j];
      PageByKeyStable(a, b, chapterId, ws[|ws| - 1].number);
    }
  }

  lemma ChapterSyncedKept(a: Db, b: Db, comicId: nat, w: ChapterWork)
    requires Grows(a, b) && ChapterSynced(a, comicId, w)
    ensures ChapterSynced(b, comicId, w)
  {
    ChapterByKeyStable(a, b, comicId, w.number);
    PagesSyncedKept(a, b, ChapterByKey(a, comicId, w.number).value + 1, w.pages);
  }

  lemma {:induction false} ChaptersSyncedKept(a: Db, b: Db, comicId: nat, ws: seq<ChapterWork>)
    requires Grows(a, b) && ChaptersSynced(a, comicId, ws)
    ensures ChaptersSynced(b, comicId, ws)
  {
    if ws != [] {
      ChaptersSyncedKept(a, b, comicId, ws[..|ws| - 1]);
      ChapterSyncedKept(a, b, comicId, ws[|ws| - 1]);
    }
  }

  lemma ComicBySlugKept(a: Db, b: Db, slug: string)
    requires Grows(a, b) && ComicBySlug(a, slug).Some?
    ensures ComicBySlug(b, slug) == ComicBySlug(a, slug)
  {
    assert forall j :: 0 <= j < |a.comics| ==> b.comics[j].slug == a.comics[j].slug;
    ComicBySlugStable(a, b, slug);
  }

  lemma ComicSyncedKept(a: Db, b: Db, w: ComicWork)
    requires Grows(a, b) && ComicSynced(a, w)
    ensures ComicSynced(b, w)
  {
    ComicBySlugKept(a, b, w.slug);
    ChaptersSyncedKept(a, b, ComicBySlug(a, w.slug).value + 1, w.chapters);
  }

  lemma {:induction false} ComicsSyncedKept(a: Db, b: Db, ws: seq<ComicWork>)
    requires Grows(a, b) && ComicsSynced(a, ws)
    ensures ComicsSynced(b, ws)
  {
    if ws != [] {
      ComicsSyncedKept(a, b, ws[..|ws| - 1]);
      ComicSyncedKept(a, b, ws[|ws| - 1]);
    }
  }

  // each walk leaves behind the rows it asked for

  lemma {:induction false} PagesFoldEstablishes(db: Db, chapterId: nat, ws: seq<PageWork>)
    ensures PagesSynced(PagesFold(db, chapterId, ws), chapterId, ws)
  {
    if ws != [] {
      var init := ws[..|ws| - 1];
      var mid := PagesFold(db, chapterId, init);
      var r := PagesFold(db, chapterId, ws);
      PagesFoldEstablishes(db, chapterId, init);
      assert Grows(mid, r);
      PagesSyncedKept(mid, r, chapterId, init);
    }
  }

  lemma ChapterStepEstablishes(db: Db, comicId: nat, w: ChapterWork)
    ensures ChapterSynced(ChapterStep(db, comicId, w), comicId, w)
  {
    var chapter := ChapterFirstOrCreate(db, comicId, w.number, ChapterTitle(w.number));
    var r := PagesFold(chapter.0, chapter.1, w.pages);
    PagesFoldGrows(chapter.0, chapter.1, w.pages);
    PagesFoldEstablishes(chapter.0, chapter.1, w.pages);
    ChapterByKeyStable(chapter.0, r, comicId, w.number);
  }

  lemma {:induction false} ChaptersFoldEstablishes(db: Db, comicId: nat, ws: seq<ChapterWork>)
    ensures ChaptersSynced(ChaptersFold(db, comicId, ws), comicId, ws)
  {
    if ws != [] {
      var init := ws[..|ws| - 1];
      var mid := ChaptersFold(db, comicId, init);
      var r := ChaptersFold(db, comicId, ws);
      ChaptersFoldEstablishes(db, comicId, init);
      ChapterStepGrows(mid, comicId, ws[|ws| - 1]);
      ChapterStepEstablishes(mid, comicId, ws[|ws| - 1]);
      ChaptersSyncedKept(mid, r, comicId, init);
    }
  }

  lemma ComicStepEstablishes(db: Db, genreId: nat, w: ComicWork, fns: StrFns)
    requires Truthy(w.slug)
    ensures ComicSynced(ComicStep(db, genreId, w, fns), w)
  {
    var comic := ComicFirstOrCreate(db, w.slug, w.title, genreId, fns);
    ComicChaptersEstablish(comic.0, comic.1, w);
  }

  /** Folding a folder's chapters into the comic row found or created for its
      slug syncs the folder. */
  lemma ComicChaptersEstablish(db: Db, comicId: nat, w: ComicWork)
    requires comicId >= 1 && ComicBySlug(db, w.slug) == Some(comicId - 1)
    ensures ComicSynced(ChaptersFold(db, comicId, w.chapters), w)
  {
    ChaptersFoldFindsComic(db, comicId, w.chapters, w.slug);
    ChaptersFoldEstablishes(db, comicId, w.chapters);
    ComicSyncedOf(ChaptersFold(db, comicId, w.chapters), comicId, w);
  }

  lemma ComicSyncedOf(db: Db, comicId: nat, w: ComicWork)
    requires comicId >= 1 && ComicBySlug(db, w.slug) == Some(comicId - 1)
    requires ChaptersSynced(db, comicId, w.chapters)
    ensures ComicSynced(db, w)
  {
    assert ComicBySlug(db, w.slug).value + 1 == comicId;
  }

  /** Folding chapters finds every comic where it was. */
  lemma ChaptersFoldFindsComic(db: Db, comicId: nat, ws: seq<ChapterWork>, slug: string)
    requires ComicBySlug(db, slug).Some?
    ensures ComicBySlug(ChaptersFold(db, comicId, ws), slug) == ComicBySlug(db, slug)
  {
    ChaptersFoldGrows(db, comicId, ws);
    ComicBySlugKept(db, ChaptersFold(db, comicId, ws), slug);
  }

  lemma {:induction false} ComicsFoldEstablishes(db: Db, genreId: nat, ws: seq<ComicWork>, fns: StrFns)
    requires forall w :: w in ws ==> Truthy(w.slug)
    ensures ComicsSynced(ComicsFold(db, genreId, ws, fns), ws)
  {
    if ws != [] {
      var init := ws[..|ws| - 1];
      var last := ws[|ws| - 1];
      var mid := ComicsFold(db, genreId, init, fns);
      var r := ComicsFold(db, genreId, ws, fns);
      assert forall w :: w in init ==> w in ws;
      ComicsFoldEstablishes(db, genreId, init, fns);
      ComicStepGrows(mid, genreId, last, fns);
      assert last in ws;
      ComicStepEstablishes(mid, genreId, last, fns);
      ComicsSyncedKept(mid, r, init);
    }
  }

  /** Each comic folder read carries the slug of its folder name. */
  lemma {:induction false} ComicWorksSlugs(cs: seq<ComicFolder>, fns: StrFns)
    requires forall c :: c in cs ==> Truthy(fns.slug(Basename(c.path)))
    ensures forall w :: w in ComicWorks(cs, fns) ==> Truthy(w.slug)
  {
    if cs != [] {
      var init := cs[..|cs| - 1];
      assert forall c :: c in init ==> c in cs;
      ComicWorksSlugs(init, fns);
      assert cs[|cs| - 1] in cs;
      assert ComicWorks(cs, fns) == ComicWorks(init, fns) + [ComicWorkOf(cs[|cs| - 1], fns)];
    }
  }

  // a walk over rows that are all there changes nothing

  lemma {:induction false} PagesFoldOnSynced(db: Db, chapterId: nat, ws: seq<PageWork>)
    requires PagesSynced(db, chapterId, ws)
    ensures PagesFold(db, chapterId, ws) == db
  {
    if ws != [] {
      PagesFoldOnSynced(db, chapterId, ws[..|ws| - 1]);
    }
  }

  lemma ChapterStepOnSynced(db: Db, comicId: nat, w: ChapterWork)
    requires ChapterSynced(db, comicId, w)
    ensures ChapterStep(db, comicId, w) == db
  {
    var chapter := ChapterFirstOrCreate(db, comicId, w.number, ChapterTitle(w.number));
    assert chapter.0 == db;
    PagesFoldOnSynced(db, chapter.1, w.pages);
  }

  lemma {:induction false} ChaptersFoldOnSynced(db: Db, comicId: nat, ws: seq<ChapterWork>)
    requires ChaptersSynced(db, comicId, ws)
    ensures ChaptersFold(db, comicId, ws) == db
  {
    if ws != [] {
      ChaptersFoldOnSynced(db, comicId, ws[..|ws| - 1]);
      ChapterStepOnSynced(db, comicId, ws[|ws| - 1]);
    }
  }

  lemma ComicStepOnSynced(db: Db, genreId: nat, w: ComicWork, fns: StrFns)
    requires ComicSynced(db, w)
    ensures ComicStep(db, genreId, w, fns) == db
  {
    var comic := ComicFirstOrCreate(db, w.slug, w.title, genreId, fns);
    assert comic.0 == db;
    ChaptersFoldOnSynced(db, comic.1, w.chapters);
  }

  lemma {:induction false} ComicsFoldOnSynced(db: Db, genreId: nat, ws: seq<ComicWork>, fns: StrFns)
    requires ComicsSynced(db, ws)
    ensures ComicsFold(db, genreId, ws, fns) == db
  {
    if ws != [] {
      ComicsFoldOnSynced(db, genreId, ws[..|ws| - 1], fns);
      ComicStepOnSynced(db, genreId, ws[|ws| - 1], fns);
    }
  }

  /** A catalogue that already holds every row the tree asks for is left as it is. */
  lemma RunOnSynced(db: Db, disk: PublicDisk, fns: StrFns)
    requires Synced(db, disk, fns)
    ensures Run(db, disk, fns).1 == db
  {
    var genre := GenreFirstOrCreate(db, GenreSlug, GenreName);
    assert genre.0 == db;
    if disk.hasComics {
      var ws := ComicWorks(disk.comics, fns);
      ComicsFoldOnSynced(db, genre.1, ws, fns);
      assert Run(db, disk, fns).1 == ComicsFold(db, genre.1, ws, fns);
    }
  }

  /** After one run the catalogue holds every row the tree asks for, as long as
      no comic folder name slugs to PHP's empty string. */
  lemma RunEstablishes(db: Db, disk: PublicDisk, fns: StrFns)
    requires disk.hasComics
    requires forall c :: c in disk.comics ==> Truthy(fns.slug(Basename(c.path)))
    ensures Synced(Run(db, disk, fns).1, disk, fns)
  {
    var genre := GenreFirstOrCreate(db, GenreSlug, GenreName);
    var ws := ComicWorks(disk.comics, fns);
    var r := ComicsFold(genre.0, genre.1, ws, fns);
    ComicWorksSlugs(disk.comics, fns);
    ComicsFoldGrows(genre.0, genre.1, ws, fns);
    ComicsFoldEstablishes(genre.0, genre.1, ws, fns);
    GenreBySlugStable(genre.0, r, GenreSlug);
  }

  /** Importing the same tree twice is importing it once: the second run creates
      no genre, comic, chapter or page and issues no write. */
  lemma RerunCreatesNothing(db: Db, disk: PublicDisk, fns: StrFns)
    requires forall c :: c in disk.comics ==> Truthy(fns.slug(Basename(c.path)))
    ensures var first := Run(db, disk, fns);
      Run(first.1, disk, fns) == first
  {
    var first := Run(db, disk, fns);
    if disk.hasComics {
      RunEstablishes(db, disk, fns);
      RunOnSynced(first.1, disk, fns);
    }
  }

  // ---------------------------------------------------------------- the command

  lemma PagesFoldSnoc(db: Db, chapterId: nat, ps: seq<string>, k: nat)
    requires k < |ps|
    ensures PagesFold(db, chapterId, PageWorks(ps[..k + 1]))
      == PageStep(PagesFold(db, chapterId, PageWorks(ps[..k])), chapterId, PageWorkOf(ps[k]))
  {
    assert ps[..k + 1][..k] == ps[..k];
  }

  lemma ChaptersFoldSnoc(db: Db, comicId: nat, ds: seq<ChapterFolder>, j: nat)
    requires j < |ds|
    ensures ChaptersFold(db, comicId, ChapterWorks(ds[..j + 1]))
      == ChapterStep(ChaptersFold(db, comicId, ChapterWorks(ds[..j])), comicId, ChapterWorkOf(ds[j]))
  {
    assert ds[..j + 1][..j] == ds[..j];
  }

  /** One more chapter folder imported: the fold over one more folder. */
  lemma ChaptersFoldStep(db0: Db, comicId: nat, ds: seq<ChapterFolder>, j: nat, before: Db, after: Db)
    requires j < |ds| && before == ChaptersFold(db0, comicId, ChapterWorks(ds[..j]))
    requires after == ChapterStep(before, comicId, ChapterWorkOf(ds[j]))
    ensures after == ChaptersFold(db0, comicId, ChapterWorks(ds[..j + 1]))
  {
    ChaptersFoldSnoc(db0, comicId, ds, j);
  }

  lemma ComicsFoldSnoc(db: Db, genreId: nat, cs: seq<ComicFolder>, i: nat, fns: StrFns)
    requires i < |cs|
    ensures ComicsFold(db, genreId, ComicWorks(cs[..i + 1], fns), fns)
      == ComicStep(ComicsFold(db, genreId, ComicWorks(cs[..i], fns), fns), genreId, ComicWorkOf(cs[i], fns), fns)
  {
    assert cs[..i + 1][..i] == cs[..i];
  }

  /** The loop over the sorted `page-` files of a chapter folder. */
  method ImportPages(db0: Db, chapterId: nat, pages: seq<string>) returns (db: Db)
    ensures db == PagesFold(db0, chapterId, PageWorks(pages))
  {
    db := db0;
    var k := 0;
    while k < |pages|
      invariant 0 <= k <= |pages|
      invariant db == PagesFold(db0, chapterId, PageWorks(pages[..k]))
    {
      var pagePath := pages[k];
      var pageNumber := PageNumberOf(pagePath);
      var extension := Extension(pagePath);
      db := PageFirstOrCreate(db, chapterId, pageNumber, pagePath, extension);
      PagesFoldSnoc(db0, chapterId, pages, k);
      k := k + 1;
    }
    assert pages[..k] == pages;
  }

  /** One chapter folder: firstOrCreate the chapter, then import its pages. */
  method ImportChapter(db0: Db, comicId: nat, chapterDir: ChapterFolder) returns (db: Db)
    ensures db == ChapterStep(db0, comicId, ChapterWorkOf(chapterDir))
  {
    var chapterNumber := ChapterNumberOf(chapterDir.path);
    var chapter := ChapterFirstOrCreate(db0, comicId, chapterNumber, ChapterTitle(chapterNumber));
    db := ImportPages(chapter.0, chapter.1, PageFiles(chapterDir.files));
  }

  /** The loop over the `chapter-` folders of a comic folder. */
  method ImportChapters(db0: Db, comicId: nat, chapterDirs: seq<ChapterFolder>) returns (db: Db)
    ensures db == ChaptersFold(db0, comicId, ChapterWorks(chapterDirs))
  {
    db := db0;
    for j := 0 to |chapterDirs|
      invariant db == ChaptersFold(db0, comicId, ChapterWorks(chapterDirs[..j]))
    {
      ghost var before := db;
      db := ImportChapter(db, comicId, chapterDirs[j]);
      ChaptersFoldStep(db0, comicId, chapterDirs, j, before, db);
    }
    assert chapterDirs[..|chapterDirs|] == chapterDirs;
  }

  /** handle(): the genre, the folder check and the walk over comic folders. */
  method Handle(db0: Db, disk: PublicDisk, fns: StrFns) returns (code: int, db: Db)
    ensures (code, db) == Run(db0, disk, fns)
  {
    var genre := GenreFirstOrCreate(db0, GenreSlug, GenreName);
    db := genre.0;
    if !disk.hasComics {
      return 1, db;
    }
    var comicDirectories := disk.comics;
    var i := 0;
    while i < |comicDirectories|
      invariant 0 <= i <= |comicDirectories|
      invariant db == ComicsFold(genre.0, genre.1, ComicWorks(comicDirectories[..i], fns), fns)
    {
      var comicName := Basename(comicDirectories[i].path);
      var comic := ComicFirstOrCreate(db, fns.slug(comicName), ComicTitle(comicName, fns), genre.1, fns);
      db := ImportChapters(comic.0, comic.1, ChapterFolders(comicDirectories[i].chapters));
      ComicsFoldSnoc(genre.0, genre.1, comicDirectories, i, fns);
      i := i + 1;
    }
    assert comicDirectories[..i] == comicDirectories;
    code := 0;
  }
}
