/** `covers:import` (app/Console/Commands/ImportCovers.php): every file under
    `covers/` on a storage disk is matched to a comic by a five-step cascade
    and, unless a cover with the same (comic_id, path) already exists, inserted
    as a primary cover. A dry run inserts nothing. */
module ImportCovers {
  import opened Text
  import opened Catalog

  /** One entry of `allFiles('covers')`: its path on the disk and its size. */
  datatype StoredFile = StoredFile(path: string, size: nat)

  /** The disk as the command sees it: whether `covers` exists, and the files
      under it, recursively, in listing order. */
  datatype CoverDisk = CoverDisk(hasCovers: bool, files: seq<StoredFile>)

  /** `option('disk') ?: 'public'`. */
  function DiskName(option: Option<string>): (r: string)
    ensures Present(option) ==> r == option.value
    ensures !Present(option) ==> r == "public"
  {
    if Present(option) then option.value else "public"
  }

  // ---------------------------------------------------------------- the lookups

  /** Comic::where('slug', slug)->first(). */
  function WhereSlug(comics: seq<Comic>, slug: string): Option<nat>
  {
    ComicIndex(comics, slug)
  }

  /** Comic::where('slug', 'like', "$prefix%")->first(). */
  function WhereSlugLike(comics: seq<Comic>, prefix: string): (r: Option<nat>)
    ensures r.Some? ==> (r.value < |comics| && StartsWith(comics[r.value].slug, prefix) &&
      forall j :: 0 <= j < r.value ==> !StartsWith(comics[j].slug, prefix))
    ensures r.None? ==> forall j :: 0 <= j < |comics| ==> !StartsWith(comics[j].slug, prefix)
  {
    if comics == [] then None
    else if StartsWith(comics[0].slug, prefix) then Some(0)
    else match WhereSlugLike(comics[1..], prefix)
      case None => None
      case Some(k) => Some(k + 1)
  }

  /** Comic::find($id): ids are positions plus one. */
  function FindById(comics: seq<Comic>, id: nat): (r: Option<nat>)
    ensures r.Some? <==> 1 <= id <= |comics|
    ensures r.Some? ==> r.value + 1 == id
  {
    if 1 <= id <= |comics| then Some(id - 1) else None
  }

  /** The capture of preg_match('/^(\d+)[-_]/', name), cast to int. The digit
      run is the longest one: a shorter run would be followed by a digit. */
  function IdPrefix(name: string): (r: Option<nat>)
  {
    var d := DigitPrefix(name);
    if d != [] && |d| < |name| && (name[|d|] == '-' || name[|d|] == '_') then Some(DigitsValue(d)) else None
  }

  /** Steps one and two: the parent folder's name as an exact slug, then its
      slug as a prefix. Skipped when the parent is falsy or is `covers` itself. */
  function FolderLookup(comics: seq<Comic>, file: string, fns: StrFns): Option<nat>
  {
    var parent := Basename(Dirname(file));
    if Truthy(parent) && parent != "covers" then
      if WhereSlug(comics, parent).Some? then WhereSlug(comics, parent)
      else WhereSlugLike(comics, fns.slug(parent))
    else None
  }

  /** Steps three to five, from the file's basename: a leading numeric id, the
      text before '_' as an exact slug, the slug of the text before '.' as a
      prefix. */
  function NameLookup(comics: seq<Comic>, name: string, fns: StrFns): Option<nat>
  {
    if IdPrefix(name).Some? && FindById(comics, IdPrefix(name).value).Some? then FindById(comics, IdPrefix(name).value)
    else if WhereSlug(comics, Before(name, "_")).Some? then WhereSlug(comics, Before(name, "_"))
    else WhereSlugLike(comics, fns.slug(Before(name, ".")))
  }

  /** The comic a cover file belongs to, as a position in the comics table. */
  function ComicFor(comics: seq<Comic>, file: string, fns: StrFns): (r: Option<nat>)
    ensures r.Some? ==> r.value < |comics|
  {
    if FolderLookup(comics, file, fns).Some? then FolderLookup(comics, file, fns)
    else NameLookup(comics, Basename(file), fns)
  }

  // ---------------------------------------------------------------- one file, the whole run

  /** Cover::where('comic_id', id)->where('path', path)->exists(). */
  predicate HasCover(covers: seq<Cover>, comicId: nat, path: string)
  {
    exists j :: 0 <= j < |covers| && covers[j].comicId == comicId && covers[j].path == path
  }

  function NewCover(comicId: nat, f: StoredFile, diskName: string): Cover
  {
    Cover(comicId, f.path, Basename(f.path), f.size, diskName, true)
  }

  /** One iteration of the loop. */
  function ImportStep(db: Db, f: StoredFile, diskName: string, dry: bool, fns: StrFns): Db
  {
    StepFor(db, ComicFor(db.comics, f.path, fns), f, diskName, dry)
  }

  /** The loop body once the cascade has found `comic` (0-based) or nothing. */
  function StepFor(db: Db, comic: Option<nat>, f: StoredFile, diskName: string, dry: bool): Db
  {
    match comic
    case None => db
    case Some(k) =>
      if HasCover(db.covers, k + 1, f.path) || dry then db
      else db.(covers := db.covers + [NewCover(k + 1, f, diskName)], writes := db.writes + 1)
  }

  function CoversFold(db: Db, files: seq<StoredFile>, diskName: string, dry: bool, fns: StrFns): Db
  {
    if files == [] then db
    else ImportStep(CoversFold(db, files[..|files| - 1], diskName, dry, fns), files[|files| - 1], diskName, dry, fns)
  }

  /** handle(): exit code and catalogue. */
  function Run(db: Db, disk: CoverDisk, diskOption: Option<string>, dry: bool, fns: StrFns): (r: (int, Db))
  {
    if !disk.hasCovers || disk.files == [] then (0, db)
    else (0, CoversFold(db, disk.files, DiskName(diskOption), dry, fns))
  }

  // ---------------------------------------------------------------- the cascade

  /** A file in `covers/<slug>/` whose folder name is the slug of a comic goes
      to the first such comic; when none has that slug, to the first comic
      whose slug starts with the folder name's slug, if any. */
  lemma FolderSlugFirst(comics: seq<Comic>, folder: string, name: string, fns: StrFns)
    requires Truthy(folder) && folder != "covers" && '/' !in folder && '/' !in name
    ensures var file := "covers/" + folder + "/" + name;
      (WhereSlug(comics, folder).Some? ==> ComicFor(comics, file, fns) == WhereSlug(comics, folder)) &&
      (WhereSlug(comics, folder).None? && WhereSlugLike(comics, fns.slug(folder)).Some? ==>
        ComicFor(comics, file, fns) == WhereSlugLike(comics, fns.slug(folder)))
  {
    var dir := "covers" + "/" + folder;
    assert "covers/" + folder + "/" + name == dir + "/" + name;
    BasenameOfJoin(dir, name);
    BasenameOfJoin("covers", folder);
  }

  /** A file directly under `covers/` skips the folder steps: it is matched by
      its name alone. */
  lemma TopLevelFileByNameOnly(comics: seq<Comic>, name: string, fns: StrFns)
    requires '/' !in name
    ensures ComicFor(comics, "covers/" + name, fns) == NameLookup(comics, name, fns)
  {
    assert "covers/" + name == "covers" + "/" + name;
    BasenameOfJoin("covers", name);
    assert Basename("covers") == "covers" by {
      assert LastIndexOf("covers", "/").None? by {
        forall j | 0 <= j <= 6 ensures !OccursAt("covers", "/", j) {
          if j < 6 { assert "covers"[j..j + 1][0] == "covers"[j]; }
        }
      }
    }
  }

  /** A name `<digits>-...` or `<digits>_...` whose number is the id of a comic
      goes to that comic, before the slug steps are tried. */
  lemma IdPrefixWins(comics: seq<Comic>, digits: string, sep: char, rest: string, fns: StrFns)
    requires digits != [] && AllDigits(digits) && (sep == '-' || sep == '_')
    requires 1 <= DigitsValue(digits) <= |comics|
    ensures NameLookup(comics, digits + [sep] + rest, fns) == Some(DigitsValue(digits) - 1)
  {
    var name := digits + ([sep] + rest);
    assert name == digits + [sep] + rest;
    DigitsThenOther(digits, [sep] + rest);
    assert name[|digits|] == sep;
  }

  /** A file in `covers/<folder>/` for which both folder steps find nothing is
      matched by its name alone, as a top-level file is. */
  lemma NestedFileFallsThrough(comics: seq<Comic>, folder: string, name: string, fns: StrFns)
    requires '/' !in folder && '/' !in name
    requires WhereSlug(comics, folder).None? && WhereSlugLike(comics, fns.slug(folder)).None?
    ensures ComicFor(comics, "covers/" + folder + "/" + name, fns) == NameLookup(comics, name, fns)
  {
    var dir := "covers" + "/" + folder;
    assert "covers/" + folder + "/" + name == dir + "/" + name;
    BasenameOfJoin(dir, name);
    BasenameOfJoin("covers", folder);
  }

  /** Without a leading id that names a comic, the text before '_' as an exact
      slug is tried before the slug of the text before '.' as a prefix. */
  lemma SlugBeforeUnderscoreBeforePrefix(comics: seq<Comic>, name: string, fns: StrFns)
    requires IdPrefix(name).None? || FindById(comics, IdPrefix(name).value).None?
    ensures WhereSlug(comics, Before(name, "_")).Some? ==>
      NameLookup(comics, name, fns) == WhereSlug(comics, Before(name, "_"))
    ensures WhereSlug(comics, Before(name, "_")).None? ==>
      NameLookup(comics, name, fns) == WhereSlugLike(comics, fns.slug(Before(name, ".")))
  {
  }

  /** The loop's `continue` on a file with no comic: the catalogue is unchanged. */
  lemma NoMatchSkipped(db: Db, f: StoredFile, diskName: string, dry: bool, fns: StrFns)
    requires ComicFor(db.comics, f.path, fns).None?
    ensures ImportStep(db, f, diskName, dry, fns) == db
  {
  }

  // ---------------------------------------------------------------- what a run does

  /** No (comic_id, path) pair appears twice among the covers. */
  ghost predicate UniqueCoverKeys(covers: seq<Cover>)
  {
    forall i, j :: 0 <= i < j < |covers| ==> !(covers[i].comicId == covers[j].comicId && covers[i].path == covers[j].path)
  }

  /** A cover the run inserted: a primary cover on this disk, for an existing
      comic, with the path, basename and size of one of the files. */
  ghost predicate Imported(c: Cover, files: seq<StoredFile>, diskName: string, comicCount: nat)
  {
    1 <= c.comicId <= comicCount && c.isPrimary && c.disk == diskName &&
    exists f :: f in files && c == NewCover(c.comicId, f, diskName)
  }

  /** A run only appends covers, each one Imported, and keeps the covers'
      (comic_id, path) keys unique. */
  ghost predicate AppendsCovers(db: Db, r: Db, files: seq<StoredFile>, diskName: string)
  {
    r.genres == db.genres && r.comics == db.comics && r.chapters == db.chapters && r.pages == db.pages &&
    db.covers <= r.covers && r.writes == db.writes + (|r.covers| - |db.covers|) &&
    (forall j :: |db.covers| <= j < |r.covers| ==> Imported(r.covers[j], files, diskName, |db.comics|)) &&
    (UniqueCoverKeys(db.covers) ==> UniqueCoverKeys(r.covers))
  }

  lemma ImportStepAppends(db: Db, f: StoredFile, diskName: string, dry: bool, fns: StrFns)
    ensures AppendsCovers(db, ImportStep(db, f, diskName, dry, fns), [f], diskName)
  {
    StepForAppends(db, ComicFor(db.comics, f.path, fns), f, diskName, dry);
  }

  lemma StepForAppends(db: Db, comic: Option<nat>, f: StoredFile, diskName: string, dry: bool)
    requires comic.Some? ==> comic.value < |db.comics|
    ensures AppendsCovers(db, StepFor(db, comic, f, diskName, dry), [f], diskName)
  {
    if comic.Some? && !HasCover(db.covers, comic.value + 1, f.path) && !dry {
      CoverAppended(db, comic.value + 1, f, diskName);
    }
  }

  /** Appending the cover of an existing comic that has no cover with that
      path is one of the appends a run may make. */
  lemma CoverAppended(db: Db, id: nat, f: StoredFile, diskName: string)
    requires 1 <= id <= |db.comics| && !HasCover(db.covers, id, f.path)
    ensures AppendsCovers(db, db.(covers := db.covers + [NewCover(id, f, diskName)], writes := db.writes + 1), [f], diskName)
  {
    var r := db.(covers := db.covers + [NewCover(id, f, diskName)], writes := db.writes + 1);
    assert r.covers[|db.covers|] == NewCover(id, f, diskName);
    assert f in [f];
  }

  lemma {:induction false} CoversFoldAppends(db: Db, files: seq<StoredFile>, diskName: string, dry: bool, fns: StrFns)
    ensures AppendsCovers(db, CoversFold(db, files, diskName, dry, fns), files, diskName)
  {
    if files != [] {
      var init := files[..|files| - 1];
      var last := files[|files| - 1];
      var mid := CoversFold(db, init, diskName, dry, fns);
      var r := CoversFold(db, files, diskName, dry, fns);
      CoversFoldAppends(db, init, diskName, dry, fns);
      ImportStepAppends(mid, last, diskName, dry, fns);
      forall j | |db.covers| <= j < |r.covers| ensures Imported(r.covers[j], files, diskName, |db.comics|) {
        if j < |mid.covers| {
          assert Imported(mid.covers[j], init, diskName, |db.comics|);
          var f :| f in init && mid.covers[j] == NewCover(mid.covers[j].comicId, f, diskName);
          assert f in files;
        } else {
          assert Imported(r.covers[j], [last], diskName, |mid.comics|);
          assert last in files;
        }
      }
    }
  }

  /** A run changes nothing but the covers table, appends a primary cover on
      the chosen disk for some files, never two covers with the same
      (comic_id, path), and always exits with 0. */
  lemma RunAppendsCovers(db: Db, disk: CoverDisk, diskOption: Option<string>, dry: bool, fns: StrFns)
    ensures Run(db, disk, diskOption, dry, fns).0 == 0
    ensures AppendsCovers(db, Run(db, disk, diskOption, dry, fns).1, disk.files, DiskName(diskOption))
  {
    CoversFoldAppends(db, disk.files, DiskName(diskOption), dry, fns);
  }

  lemma {:induction false} CoversFoldDry(db: Db, files: seq<StoredFile>, diskName: string, fns: StrFns)
    ensures CoversFold(db, files, diskName, true, fns) == db
  {
    if files != [] {
      CoversFoldDry(db, files[..|files| - 1], diskName, fns);
    }
  }

  /** A dry run inserts nothing; neither does a run without a `covers`
      folder or with an empty one. */
  lemma DryOrEmptyRunWritesNothing(db: Db, disk: CoverDisk, diskOption: Option<string>, dry: bool, fns: StrFns)
    requires dry || !disk.hasCovers || disk.files == []
    ensures Run(db, disk, diskOption, dry, fns) == (0, db)
  {
    if dry {
      CoversFoldDry(db, disk.files, DiskName(diskOption), fns);
    }
  }

  // ---------------------------------------------------------------- a second run

  /** The file has no comic, or its (comic_id, path) cover exists. */
  predicate Covered(db: Db, f: StoredFile, fns: StrFns)
  {
    ComicFor(db.comics, f.path, fns).None? || HasCover(db.covers, ComicFor(db.comics, f.path, fns).value + 1, f.path)
  }

  predicate AllCovered(db: Db, files: seq<StoredFile>, fns: StrFns)
  {
    files == [] || (AllCovered(db, files[..|files| - 1], fns) && Covered(db, files[|files| - 1], fns))
  }

  lemma CoveredKept(db: Db, db': Db, f: StoredFile, fns: StrFns)
    requires Covered(db, f, fns) && db'.comics == db.comics && db.covers <= db'.covers
    ensures Covered(db', f, fns)
  {
    if ComicFor(db.comics, f.path, fns).Some? {
      var k := ComicFor(db.comics, f.path, fns).value;
      var j :| 0 <= j < |db.covers| && db.covers[j].comicId == k + 1 && db.covers[j].path == f.path;
      assert db'.covers[j] == db.covers[j];
    }
  }

  lemma {:induction false} AllCoveredKept(db: Db, db': Db, files: seq<StoredFile>, fns: StrFns)
    requires AllCovered(db, files, fns) && db'.comics == db.comics && db.covers <= db'.covers
    ensures AllCovered(db', files, fns)
  {
    if files != [] {
      AllCoveredKept(db, db', files[..|files| - 1], fns);
      CoveredKept(db, db', files[|files| - 1], fns);
    }
  }

  lemma ImportStepCovers(db: Db, f: StoredFile, diskName: string, fns: StrFns)
    ensures Covered(ImportStep(db, f, diskName, false, fns), f, fns)
  {
    var r := ImportStep(db, f, diskName, false, fns);
    if ComicFor(db.comics, f.path, fns).Some? && r != db {
      var k := ComicFor(db.comics, f.path, fns).value;
      assert r.covers[|db.covers|].comicId == k + 1 && r.covers[|db.covers|].path == f.path;
    }
  }

  lemma {:induction false} CoversFoldCovers(db: Db, files: seq<StoredFile>, diskName: string, fns: StrFns)
    ensures AllCovered(CoversFold(db, files, diskName, false, fns), files, fns)
  {
    if files != [] {
      var init := files[..|files| - 1];
      var mid := CoversFold(db, init, diskName, false, fns);
      var r := CoversFold(db, files, diskName, false, fns);
      CoversFoldCovers(db, init, diskName, fns);
      ImportStepAppends(mid, files[|files| - 1], diskName, false, fns);
      AllCoveredKept(mid, r, init, fns);
      ImportStepCovers(mid, files[|files| - 1], diskName, fns);
    }
  }

  lemma {:induction false} CoversFoldOnCovered(db: Db, files: seq<StoredFile>, diskName: string, fns: StrFns)
    requires AllCovered(db, files, fns)
    ensures CoversFold(db, files, diskName, false, fns) == db
  {
    if files != [] {
      CoversFoldOnCovered(db, files[..|files| - 1], diskName, fns);
    }
  }

  /** Running the import again on the same disk inserts nothing: every file
      either has no comic or already has its (comic_id, path) cover. */
  lemma RerunInsertsNothing(db: Db, disk: CoverDisk, diskOption: Option<string>, fns: StrFns)
    ensures var first := Run(db, disk, diskOption, false, fns);
      Run(first.1, disk, diskOption, false, fns) == first
  {
    if disk.hasCovers && disk.files != [] {
      CoversFoldCovers(db, disk.files, DiskName(diskOption), fns);
      CoversFoldOnCovered(CoversFold(db, disk.files, DiskName(diskOption), false, fns), disk.files, DiskName(diskOption), fns);
    }
  }

  // ---------------------------------------------------------------- the command

  /** The lookup cascade as the loop body runs it, reassigning `comic`. */
  method LookupComic(comics: seq<Comic>, file: string, fns: StrFns) returns (comic: Option<nat>)
    ensures comic == ComicFor(comics, file, fns)
  {
    var basename := Basename(file);
    comic := None;
    var parentDir := Basename(Dirname(file));
    if Truthy(parentDir) && parentDir != "covers" {
      comic := WhereSlug(comics, parentDir);
      if comic.None? {
        comic := WhereSlugLike(comics, fns.slug(parentDir));
      }
    }
    if comic.None? {
      var id := IdPrefix(basename);
      if id.Some? {
        comic := FindById(comics, id.value);
      }
    }
    if comic.None? {
      comic := WhereSlug(comics, Before(basename, "_"));
    }
    if comic.None? {
      comic := WhereSlugLike(comics, fns.slug(Before(basename, ".")));
    }
  }

  method ImportFile(db0: Db, f: StoredFile, diskName: string, dry: bool, fns: StrFns) returns (db: Db)
    ensures db == ImportStep(db0, f, diskName, dry, fns)
  {
    var comic := LookupComic(db0.comics, f.path, fns);
    db := InsertFound(db0, comic, f, diskName, dry);
  }

  /** The rest of the loop body: skip a file with no comic or an existing
      (comic_id, path) cover, otherwise insert the cover unless dry. */
  method InsertFound(db0: Db, comic: Option<nat>, f: StoredFile, diskName: string, dry: bool) returns (db: Db)
    ensures db == StepFor(db0, comic, f, diskName, dry)
  {
    db := db0;
    if comic.None? {
      return;
    }
    var id := comic.value + 1;
    if HasCover(db.covers, id, f.path) {
      return;
    }
    var data := NewCover(id, f, diskName);
    if dry {
      return;
    }
    db := db.(covers := db.covers + [data], writes := db.writes + 1);
  }

  lemma CoversFoldSnoc(db: Db, files: seq<StoredFile>, j: nat, diskName: string, dry: bool, fns: StrFns)
    requires j < |files|
    ensures CoversFold(db, files[..j + 1], diskName, dry, fns) == ImportStep(CoversFold(db, files[..j], diskName, dry, fns), files[j], diskName, dry, fns)
  {
    assert files[..j + 1][..j] == files[..j];
  }

  method Handle(db0: Db, disk: CoverDisk, diskOption: Option<string>, dry: bool, fns: StrFns) returns (code: int, db: Db)
    ensures (code, db) == Run(db0, disk, diskOption, dry, fns)
  {
    var diskName := DiskName(diskOption);
    db := db0;
    if !disk.hasCovers {
      return 0, db;
    }
    var files := disk.files;
    if files == [] {
      return 0, db;
    }
    var i := 0;
    while i < |files|
      invariant 0 <= i <= |files|
      invariant db == CoversFold(db0, files[..i], diskName, dry, fns)
    {
      CoversFoldSnoc(db0, files, i, diskName, dry, fns);
      db := ImportFile(db, files[i], diskName, dry, fns);
      i := i + 1;
    }
    assert files[..i] == files;
    code := 0;
  }
}
