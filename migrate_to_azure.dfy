/** `storage:migrate-to-azure` (app/Console/Commands/MigrateToAzure.php):
    copy every cover, then every page, from the public disk to the Azure disk
    and point its row at Azure, counting each record as processed or skipped.
    Reading the public disk is a map from path to contents; whether Azure
    accepts a `put` is an oracle on the destination path. */
module MigrateToAzure {
  import opened Text
  import opened Catalog

  /** The command's running state: the catalogue, the Azure disk's objects and
      the two counters of the current loop. */
  datatype MigState = MigState(db: Db, azure: map<string, string>, processed: nat, skipped: nat)

  /** The counters the command prints. */
  datatype Report = Report(coversProcessed: nat, coversSkipped: nat, pagesProcessed: nat, pagesSkipped: nat,
                           db: Db, azure: map<string, string>)

  // ---------------------------------------------------------------- relations

  /** `$page->chapter`: the chapter row whose id is chapter_id, if any. */
  function ChapterOf(db: Db, p: Page): Option<Chapter>
  {
    if 1 <= p.chapterId <= |db.chapters| then Some(db.chapters[p.chapterId - 1]) else None
  }

  /** `->comic`: the comic row whose id is comic_id, if any. */
  function ComicOf(db: Db, comicId: nat): Option<Comic>
  {
    if 1 <= comicId <= |db.comics| then Some(db.comics[comicId - 1]) else None
  }

  // ---------------------------------------------------------------- paths

  /** The page's source path, whatever the page's image_path says. */
  function PageSource(pageNumber: int): string
  {
    "comics/kimetsunoyaiba/chapter1/" + IntToString(pageNumber) + ".jpg"
  }

  /** `comics/{slug}/chapter-{number}/page-{page_number}.{ext}`. */
  function PageDestination(slug: string, chapterNumber: int, pageNumber: int, ext: string): string
  {
    "comics/" + slug + "/chapter-" + IntToString(chapterNumber) + "/page-" + IntToString(pageNumber) + "." + ext
  }

  // ---------------------------------------------------------------- one record

  /** `$page->update(['image_path' => dest, 'disk' => 'azure'])`. `disk` is
      not among Page's fillable attributes, so mass assignment drops it and
      only image_path is set: a write only when the path changes. */
  function MovePage(db: Db, i: nat, dest: string): (r: Db)
    requires i < |db.pages|
    ensures r.pages == db.pages[i := db.pages[i].(imagePath := dest)]
    ensures r == db.(pages := r.pages, writes := r.writes)
    ensures r.writes == if db.pages[i].imagePath == dest then db.writes else db.writes + 1
  {
    var p := db.pages[i];
    if p.imagePath == dest then db
    else db.(pages := db.pages[i := p.(imagePath := dest)], writes := db.writes + 1)
  }

  /** `$cover->update(['disk' => 'azure'])`. */
  function MoveCover(db: Db, i: nat): (r: Db)
    requires i < |db.covers|
    ensures r.covers == db.covers[i := db.covers[i].(disk := "azure")]
    ensures r == db.(covers := r.covers, writes := r.writes) && db.writes <= r.writes <= db.writes + 1
  {
    var c := db.covers[i];
    if c.disk == "azure" then db
    else db.(covers := db.covers[i := c.(disk := "azure")], writes := db.writes + 1)
  }

  /** One iteration of the page loop, on the i-th page. */
  function PageStep(st: MigState, i: nat, local: map<string, string>, dry: bool, accepts: string -> bool): MigState
    requires i < |st.db.pages|
  {
    var p := st.db.pages[i];
    var chapter := ChapterOf(st.db, p);
    if chapter.None? || ComicOf(st.db, chapter.value.comicId).None? then st.(skipped := st.skipped + 1)
    else CopyPage(st, i, ComicOf(st.db, chapter.value.comicId).value.slug, chapter.value.number, local, dry, accepts)
  }

  /** The rest of the page iteration once the chapter and the comic are
      found: the source check, then the copy and the row update. */
  function CopyPage(st: MigState, i: nat, slug: string, chapterNumber: int, local: map<string, string>, dry: bool,
                    accepts: string -> bool): MigState
    requires i < |st.db.pages|
  {
    var p := st.db.pages[i];
    var source := PageSource(p.pageNumber);
    if !Truthy(source) then st.(skipped := st.skipped + 1)
    else if source !in local then st.(skipped := st.skipped + 1)
    else
      var dest := PageDestination(slug, chapterNumber, p.pageNumber, Extension(source));
      if dry then st.(processed := st.processed + 1)
      else if !Truthy(local[source]) || !accepts(dest) then st.(skipped := st.skipped + 1)
      else MigState(MovePage(st.db, i, dest), st.azure[dest := local[source]], st.processed + 1, st.skipped)
  }

  /** One iteration of the cover loop, on the i-th cover: same destination as source. */
  function CoverStep(st: MigState, i: nat, local: map<string, string>, dry: bool, accepts: string -> bool): MigState
    requires i < |st.db.covers|
  {
    var c := st.db.covers[i];
    if ComicOf(st.db, c.comicId).None? then st.(skipped := st.skipped + 1)
    else
      var source := c.path;
      if !Truthy(source) then st.(skipped := st.skipped + 1)
      else if source !in local then st.(skipped := st.skipped + 1)
      else
        var dest := source;
        if dry then st.(processed := st.processed + 1)
        else if !Truthy(local[source]) || !accepts(dest) then st.(skipped := st.skipped + 1)
        else MigState(MoveCover(st.db, i), st.azure[dest := local[source]], st.processed + 1, st.skipped)
  }

  /** The first n pages, in table order. Every record adds one to exactly one
      counter, and the tables keep their sizes and their other rows. */
  function PagesFold(st: MigState, n: nat, local: map<string, string>, dry: bool, accepts: string -> bool): (r: MigState)
    requires n <= |st.db.pages|
    ensures r.processed + r.skipped == st.processed + st.skipped + n
    ensures |r.db.pages| == |st.db.pages| && r.db.chapters == st.db.chapters && r.db.comics == st.db.comics
    ensures r.db.covers == st.db.covers && r.db.genres == st.db.genres
    ensures forall j :: n <= j < |st.db.pages| ==> r.db.pages[j] == st.db.pages[j]
  {
    if n == 0 then st
    else
      var mid := PagesFold(st, n - 1, local, dry, accepts);
      PageStep(mid, n - 1, local, dry, accepts)
  }

  function CoversFold(st: MigState, n: nat, local: map<string, string>, dry: bool, accepts: string -> bool): (r: MigState)
    requires n <= |st.db.covers|
    ensures r.processed + r.skipped == st.processed + st.skipped + n
    ensures |r.db.covers| == |st.db.covers| && r.db.comics == st.db.comics && r.db.pages == st.db.pages
    ensures r.db.chapters == st.db.chapters && r.db.genres == st.db.genres
    ensures forall j :: n <= j < |st.db.covers| ==> r.db.covers[j] == st.db.covers[j]
  {
    if n == 0 then st
    else
      var mid := CoversFold(st, n - 1, local, dry, accepts);
      CoverStep(mid, n - 1, local, dry, accepts)
  }

  /** handle(): covers first, then pages, each loop with counters from zero. */
  function Run(db: Db, azure: map<string, string>, local: map<string, string>, dry: bool, accepts: string -> bool): Report
  {
    var covers := CoversFold(MigState(db, azure, 0, 0), |db.covers|, local, dry, accepts);
    var pages := PagesFold(MigState(covers.db, covers.azure, 0, 0), |covers.db.pages|, local, dry, accepts);
    Report(covers.processed, covers.skipped, pages.processed, pages.skipped, pages.db, pages.azure)
  }

  // ---------------------------------------------------------------- properties

  /** processed + skipped is the number of covers, and the number of pages. */
  lemma CountersAddUp(db: Db, azure: map<string, string>, local: map<string, string>, dry: bool, accepts: string -> bool)
    ensures var r := Run(db, azure, local, dry, accepts);
      r.coversProcessed + r.coversSkipped == |db.covers| && r.pagesProcessed + r.pagesSkipped == |db.pages|
  {
  }

  /** A page without a chapter, or whose chapter has no comic, is skipped
      before storage is looked at: the outcome is the same whatever the disks
      hold and whatever Azure accepts, and only `skipped` moves. */
  lemma MissingRelationSkipsBeforeStorage(st: MigState, i: nat, local: map<string, string>, local': map<string, string>,
                                          dry: bool, dry': bool, accepts: string -> bool, accepts': string -> bool)
    requires i < |st.db.pages|
    requires ChapterOf(st.db, st.db.pages[i]).None? ||
             ComicOf(st.db, ChapterOf(st.db, st.db.pages[i]).value.comicId).None?
    ensures PageStep(st, i, local, dry, accepts) == PageStep(st, i, local', dry', accepts') == st.(skipped := st.skipped + 1)
  {
  }

  lemma IntToStringChars(n: int)
    ensures '/' !in IntToString(n) && '.' !in IntToString(n)
  {
    var s := IntToString(n);
    IntToStringDigits(n);
    forall k | 0 <= k < |s| ensures s[k] != '/' && s[k] != '.' {
      if n < 0 && k > 0 {
        assert s[k] == s[1..][k - 1];
      }
    }
  }

  /** The source path is never empty, so the `empty($sourcePath)` branch is
      dead, and its extension is always "jpg". */
  lemma PageSourceShape(n: int)
    ensures Truthy(PageSource(n))
    ensures Extension(PageSource(n)) == "jpg"
  {
    IntToStringChars(n);
    assert PageSource(n) == "comics/kimetsunoyaiba/chapter1" + "/" + (IntToString(n) + "." + "jpg");
    ExtensionOfJoin("comics/kimetsunoyaiba/chapter1", IntToString(n), "jpg");
  }

  /** A migrated page's destination is `comics/{slug}/chapter-{number}/page-{page_number}.jpg`. */
  lemma PageDestinationIsJpg(slug: string, chapterNumber: int, pageNumber: int)
    ensures PageDestination(slug, chapterNumber, pageNumber, Extension(PageSource(pageNumber))) ==
      "comics/" + slug + "/chapter-" + IntToString(chapterNumber) + "/page-" + IntToString(pageNumber) + ".jpg"
  {
    PageSourceShape(pageNumber);
  }

  /** A page row changes only outside dry-run, after its source was read with
      truthy contents and Azure accepted the put; it then holds the
      destination path (its disk is untouched), Azure holds the contents at that
      path, and `processed` moves. On a failed read or put only `skipped` moves. */
  lemma PageMovedOnlyOnSuccess(st: MigState, i: nat, local: map<string, string>, dry: bool, accepts: string -> bool)
    requires i < |st.db.pages|
    ensures var r := PageStep(st, i, local, dry, accepts);
      var p := st.db.pages[i];
      var source := PageSource(p.pageNumber);
      (r.db == st.db && r.azure == st.azure) ||
      (!dry && source in local && Truthy(local[source]) && r.processed == st.processed + 1 && r.skipped == st.skipped &&
       ChapterOf(st.db, p).Some? && ComicOf(st.db, ChapterOf(st.db, p).value.comicId).Some? &&
       var dest := PageDestination(ComicOf(st.db, ChapterOf(st.db, p).value.comicId).value.slug,
                                   ChapterOf(st.db, p).value.number, p.pageNumber, "jpg");
       accepts(dest) && r.azure == st.azure[dest := local[source]] &&
       r.db.pages == st.db.pages[i := p.(imagePath := dest)])
  {
    PageSourceShape(st.db.pages[i].pageNumber);
  }

  /** A migrated cover keeps its path, gets disk `azure`, and Azure holds its
      contents at that same path. */
  lemma CoverKeepsPath(st: MigState, i: nat, local: map<string, string>, dry: bool, accepts: string -> bool)
    requires i < |st.db.covers|
    ensures var r := CoverStep(st, i, local, dry, accepts);
      var c := st.db.covers[i];
      (r.db == st.db && r.azure == st.azure) ||
      (!dry && ComicOf(st.db, c.comicId).Some? && c.path in local && Truthy(local[c.path]) && accepts(c.path) &&
       r.azure == st.azure[c.path := local[c.path]] && r.db.covers == st.db.covers[i := c.(disk := "azure")] &&
       r.db.covers[i].path == c.path)
  {
  }

  lemma {:induction false} PagesFoldDry(st: MigState, n: nat, local: map<string, string>, accepts: string -> bool)
    requires n <= |st.db.pages|
    ensures var r := PagesFold(st, n, local, true, accepts);
      r.db == st.db && r.azure == st.azure
  {
    if n > 0 {
      PagesFoldDry(st, n - 1, local, accepts);
    }
  }

  lemma {:induction false} CoversFoldDry(st: MigState, n: nat, local: map<string, string>, accepts: string -> bool)
    requires n <= |st.db.covers|
    ensures var r := CoversFold(st, n, local, true, accepts);
      r.db == st.db && r.azure == st.azure
  {
    if n > 0 {
      CoversFoldDry(st, n - 1, local, accepts);
    }
  }

  /** A dry run writes no row and puts no object. */
  lemma DryRunChangesNothing(db: Db, azure: map<string, string>, local: map<string, string>, accepts: string -> bool)
    ensures Run(db, azure, local, true, accepts).db == db && Run(db, azure, local, true, accepts).azure == azure
  {
    CoversFoldDry(MigState(db, azure, 0, 0), |db.covers|, local, accepts);
    var c := CoversFold(MigState(db, azure, 0, 0), |db.covers|, local, true, accepts);
    PagesFoldDry(MigState(c.db, c.azure, 0, 0), |c.db.pages|, local, accepts);
  }

  // ---------------------------------------------------------------- the command

  /** The body of the page loop, with its early exits. */
  method MigratePage(st: MigState, i: nat, local: map<string, string>, dry: bool, accepts: string -> bool) returns (r: MigState)
    requires i < |st.db.pages|
    ensures r == PageStep(st, i, local, dry, accepts)
  {
    var page := st.db.pages[i];
    var chapter := ChapterOf(st.db, page);
    if chapter.None? || ComicOf(st.db, chapter.value.comicId).None? {
      return st.(skipped := st.skipped + 1);
    }
    var comic := ComicOf(st.db, chapter.value.comicId).value;
    r := CopyPageFile(st, i, comic.slug, chapter.value.number, local, dry, accepts);
  }

  /** The page loop's body from the source path on. */
  method CopyPageFile(st: MigState, i: nat, slug: string, chapterNumber: int, local: map<string, string>, dry: bool,
                      accepts: string -> bool) returns (r: MigState)
    requires i < |st.db.pages|
    ensures r == CopyPage(st, i, slug, chapterNumber, local, dry, accepts)
  {
    var page := st.db.pages[i];
    var sourcePath := PageSource(page.pageNumber);
    if !Truthy(sourcePath) {
      // `empty($sourcePath)`: the path is a non-empty literal plus digits (PageSourceShape)
      assert false;
    }
    if sourcePath !in local {
      return st.(skipped := st.skipped + 1);
    }
    var extension := Extension(sourcePath);
    var destinationPath := PageDestination(slug, chapterNumber, page.pageNumber, extension);
    if dry {
      return st.(processed := st.processed + 1);
    }
    var contents := local[sourcePath];
    if !Truthy(contents) {
      return st.(skipped := st.skipped + 1);
    }
    if !accepts(destinationPath) {
      return st.(skipped := st.skipped + 1);
    }
    r := MigState(MovePage(st.db, i, destinationPath), st.azure[destinationPath := contents], st.processed + 1, st.skipped);
  }

  /** The body of the cover loop. */
  method MigrateCover(st: MigState, i: nat, local: map<string, string>, dry: bool, accepts: string -> bool) returns (r: MigState)
    requires i < |st.db.covers|
    ensures r == CoverStep(st, i, local, dry, accepts)
  {
    var cover := st.db.covers[i];
    if ComicOf(st.db, cover.comicId).None? {
      return st.(skipped := st.skipped + 1);
    }
    var sourcePath := cover.path;
    if !Truthy(sourcePath) {
      return st.(skipped := st.skipped + 1);
    }
    if sourcePath !in local {
      return st.(skipped := st.skipped + 1);
    }
    var destinationPath := sourcePath;
    if dry {
      return st.(processed := st.processed + 1);
    }
    var contents := local[sourcePath];
    if !Truthy(contents) || !accepts(destinationPath) {
      return st.(skipped := st.skipped + 1);
    }
    r := MigState(MoveCover(st.db, i), st.azure[destinationPath := contents], st.processed + 1, st.skipped);
  }

  /** migrateCovers(). */
  method MigrateCovers(db: Db, azure: map<string, string>, local: map<string, string>, dry: bool, accepts: string -> bool)
    returns (r: MigState)
    ensures r == CoversFold(MigState(db, azure, 0, 0), |db.covers|, local, dry, accepts)
  {
    var st0 := MigState(db, azure, 0, 0);
    r := st0;
    var i := 0;
    while i < |db.covers|
      invariant 0 <= i <= |db.covers|
      invariant r == CoversFold(st0, i, local, dry, accepts)
    {
      r := MigrateCover(r, i, local, dry, accepts);
      i := i + 1;
    }
  }

  method Handle(db: Db, azure: map<string, string>, local: map<string, string>, dry: bool, accepts: string -> bool)
    returns (report: Report)
    ensures report == Run(db, azure, local, dry, accepts)
  {
    var covers := MigrateCovers(db, azure, local, dry, accepts);
    var st0 := MigState(covers.db, covers.azure, 0, 0);
    var st := st0;
    var i := 0;
    while i < |covers.db.pages|
      invariant 0 <= i <= |covers.db.pages|
      invariant st == PagesFold(st0, i, local, dry, accepts)
    {
      st := MigratePage(st, i, local, dry, accepts);
      i := i + 1;
    }
    report := Report(covers.processed, covers.skipped, st.processed, st.skipped, st.db, st.azure);
  }
}
