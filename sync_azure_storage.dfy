/** `az:sync-storage` (app/Console/Commands/SyncAzureStorage.php): walk a local
    tree {comic}/{chapter}/{file}, upload every file to
    comics/{slug}/chapter-{n}/{file} on the `azure` disk and point the
    (chapter_id, page_number) Page row at it. Comics are matched by slug or
    title and chapters by (comic_id, number); missing ones are created outside
    dry-run. A dry run uploads nothing and writes nothing. */
module SyncAzureStorage {
  import opened Text
  import opened Seqs
  import opened Catalog
  import opened ComicModel

  // ---------------------------------------------------------------- the local tree

  /** A chapter folder: its name and the names of the files in it, in listing order. */
  datatype LocalChapter = LocalChapter(name: string, files: seq<string>)

  /** A comic folder: its name and its chapter folders, in listing order. */
  datatype LocalComic = LocalComic(name: string, chapters: seq<LocalChapter>)

  /** The scanned path: whether it is a directory, and its comic folders. */
  datatype LocalTree = LocalTree(isDir: bool, comics: seq<LocalComic>)

  /** The catalogue together with the object paths put on the `azure` disk, in order. */
  datatype Store = Store(db: Db, uploads: seq<string>)

  // ---------------------------------------------------------------- chapter number from a folder name

  predicate IsSep(c: char) { c == '-' || c == '_' || c == ' ' }

  /** Where /chapter[-_ ]?(\d+)/i matches: "chapter" in any ASCII case, then
      either a digit, or one separator and a digit. */
  predicate ChapterWordAt(s: string, i: nat)
  {
    i + 7 < |s| && EqualIgnoringCase(s[i..i + 7], "chapter") &&
    (IsDigit(s[i + 7]) || (IsSep(s[i + 7]) && i + 8 < |s| && IsDigit(s[i + 8])))
  }

  /** The digits captured by that match. */
  function ChapterWordCapture(s: string, i: nat): (r: string)
    requires ChapterWordAt(s, i)
    ensures |r| >= 1 && AllDigits(r)
  {
    if IsDigit(s[i + 7]) then DigitPrefix(s[i + 7..]) else DigitPrefix(s[i + 8..])
  }

  /** The leftmost position where the first rule matches. */
  function ChapterWordPos(s: string): (r: Option<nat>)
    ensures r.Some? ==> r.value < |s| && ChapterWordAt(s, r.value) && forall j :: 0 <= j < r.value ==> !ChapterWordAt(s, j)
    ensures r.None? <==> forall i :: 0 <= i < |s| ==> !ChapterWordAt(s, i)
  {
    ChapterWordFrom(s, 0)
  }

  function ChapterWordFrom(s: string, k: nat): (r: Option<nat>)
    requires k <= |s|
    ensures r.Some? ==> k <= r.value < |s| && ChapterWordAt(s, r.value) && forall j :: k <= j < r.value ==> !ChapterWordAt(s, j)
    ensures r.None? ==> forall i :: k <= i < |s| ==> !ChapterWordAt(s, i)
    decreases |s| - k
  {
    if k == |s| then None else if ChapterWordAt(s, k) then Some(k) else ChapterWordFrom(s, k + 1)
  }

  /** First rule: the leftmost /chapter[-_ ]?(\d+)/i match. */
  function ByChapterWord(s: string): (r: Option<nat>)
    ensures r.None? <==> forall i :: 0 <= i < |s| ==> !ChapterWordAt(s, i)
  {
    match ChapterWordPos(s)
    case None => None
    case Some(i) => Some(DigitsValue(ChapterWordCapture(s, i)))
  }

  /** Second rule: /^(\d+)$/, the whole name is digits. */
  function ByWholeName(s: string): (r: Option<nat>)
    ensures r.Some? <==> |s| >= 1 && AllDigits(s)
  {
    if |s| >= 1 && AllDigits(s) then Some(DigitsValue(s)) else None
  }

  /** Third rule: /(\d+)/, the first digit run anywhere. */
  function ByFirstDigits(s: string): (r: Option<nat>)
    ensures r.None? <==> forall i :: 0 <= i < |s| ==> !IsDigit(s[i])
  {
    match FirstDigit(s, 0)
    case None => None
    case Some(i) => Some(DigitsValue(DigitPrefix(s[i..])))
  }

  /** The leftmost digit at k or later. */
  function FirstDigit(s: string, k: nat): (r: Option<nat>)
    requires k <= |s|
    ensures r.Some? ==> k <= r.value < |s| && IsDigit(s[r.value])
    ensures r.None? ==> forall i :: k <= i < |s| ==> !IsDigit(s[i])
    decreases |s| - k
  {
    if k == |s| then None else if IsDigit(s[k]) then Some(k) else FirstDigit(s, k + 1)
  }

  /** The chapter number of a folder: the first of the three rules that matches.
      It is missing exactly when the name has no digit at all. */
  function ChapterNumberOf(s: string): (r: Option<nat>)
    ensures r.None? <==> forall i :: 0 <= i < |s| ==> !IsDigit(s[i])
  {
    match ByChapterWord(s)
    case Some(n) => Some(n)
    case None =>
      match ByWholeName(s)
      case Some(n) => Some(n)
      case None =>
        if ByFirstDigits(s).None? then None
        else
          assert |s| >= 1 && !AllDigits(s);
          ByFirstDigits(s)
  }

  /** The whole-name rule never decides anything the first-digit-run rule would
      not: the number is the "chapter" capture if there is one, else the first
      digit run. */
  lemma {:induction false} WholeNameRuleIsRedundant(s: string)
    ensures ChapterNumberOf(s) == if ByChapterWord(s).Some? then ByChapterWord(s) else ByFirstDigits(s)
  {
    if ByChapterWord(s).None? && ByWholeName(s).Some? {
      assert FirstDigit(s, 0) == Some(0);
      DigitPrefixOfDigits(s);
      assert s[0..] == s;
    }
  }

  /** A name that is all digits is its own number ("007" is chapter 7). */
  lemma PlainDigitsName(s: string)
    requires |s| >= 1 && AllDigits(s)
    ensures ChapterNumberOf(s) == Some(DigitsValue(s))
  {
    WholeNameRuleIsRedundant(s);
    forall i | 0 <= i < |s| ensures !ChapterWordAt(s, i) {
      if i + 7 < |s| {
        assert s[i..i + 7][0] == s[i];
        assert Lower(s[i]) == s[i];
      }
    }
  }

  /** The "chapter" rule wins over the others wherever it matches, and it takes
      the digits right after the word: in "vol2-chapter-5" the chapter is 5. */
  lemma ChapterWordWins()
    ensures ChapterNumberOf("vol2-chapter-5") == Some(5)
  {
    var s := "vol2-chapter-5";
    FirstChapterWordAtFive();
    assert ChapterWordCapture(s, 5) == "5" by {
      assert s[12] == '-' && s[13..] == "5";
      assert DigitPrefix("5") == "5";
    }
    assert DigitsValue("5") == 5;
    assert ByChapterWord(s) == Some(5);
  }

  /** In "vol2-chapter-5" the first "chapter" starts at position 5. */
  lemma FirstChapterWordAtFive()
    ensures ChapterWordPos("vol2-chapter-5") == Some(5)
  {
    var s := "vol2-chapter-5";
    assert ChapterWordAt(s, 5) by {
      assert s[5..12] == "chapter";
    }
    forall i | 0 <= i < 5 ensures !ChapterWordAt(s, i) {
      assert s[i..i + 7][0] == s[i];
      assert Lower(s[i]) != 'c';
    }
  }

  // ---------------------------------------------------------------- comic lookup

  /** `where('slug', slug)->orWhere('title', title)`. */
  function SlugOrTitleIs(slug: string, title: string): Comic -> bool
  {
    (c: Comic) => c.slug == slug || c.title == title
  }

  /** The first comic whose slug is slug(folder) or whose title is the folder name. */
  function FindComic(db: Db, name: string, fns: StrFns): (r: Option<nat>)
    ensures r.Some? ==> (r.value < |db.comics| &&
      (db.comics[r.value].slug == fns.slug(name) || db.comics[r.value].title == name))
    ensures r.Some? ==> forall j :: 0 <= j < r.value ==> db.comics[j].slug != fns.slug(name) && db.comics[j].title != name
    ensures r.None? ==> forall j :: 0 <= j < |db.comics| ==> db.comics[j].slug != fns.slug(name) && db.comics[j].title != name
  {
    FirstWhere(db.comics, SlugOrTitleIs(fns.slug(name), name))
  }

  /** The comic a folder is synced into: its id and slug. */
  datatype ComicRef = ComicRef(id: nat, slug: string)

  /** The chapter a folder is synced into: its id and number. */
  datatype ChapterRef = ChapterRef(id: nat, number: int)

  const DefaultGenreSlug := "uncategorized"
  const DefaultGenreName := "Uncategorized"

  /** The comic of a folder: the one found by slug or title; otherwise, outside
      dry-run, a new comic titled with the folder name, saved with slug(folder)
      through the creating hook and the `uncategorized` genre (found or
      created); in dry-run, none. */
  function ResolveComic(db: Db, name: string, dryRun: bool, fns: StrFns): (r: (Db, Option<ComicRef>))
    ensures r.1.Some? ==> (1 <= r.1.value.id <= |r.0.comics| && r.0.comics[r.1.value.id - 1].slug == r.1.value.slug &&
      (r.0.comics[r.1.value.id - 1].slug == fns.slug(name) || r.0.comics[r.1.value.id - 1].title == name))
    ensures r.1.None? <==> dryRun && FindComic(db, name, fns).None?
    ensures dryRun || FindComic(db, name, fns).Some? ==> r.0 == db
    ensures r.0.chapters == db.chapters && r.0.pages == db.pages
    ensures FindComic(db, name, fns).Some? ==> r.1.value.id == FindComic(db, name, fns).value + 1
    ensures FindComic(db, name, fns).None? && !dryRun ==>
      db.comics <= r.0.comics && |r.0.comics| == |db.comics| + 1 && r.1.value.id == |r.0.comics| &&
      r.0.comics[|db.comics|].title == name && r.0.comics[|db.comics|].coverPath.None? &&
      r.0.comics[|db.comics|].slug == CreatingSlug(fns.slug(name), name, fns, |db.comics| + 1) &&
      1 <= r.0.comics[|db.comics|].genreId <= |r.0.genres| &&
      r.0.genres[r.0.comics[|db.comics|].genreId - 1].slug == DefaultGenreSlug &&
      db.genres <= r.0.genres &&
      r.0.writes == db.writes + 1 + (if GenreBySlug(db, DefaultGenreSlug).None? then 1 else 0)
  {
    match FindComic(db, name, fns)
    case Some(k) => (db, Some(ComicRef(k + 1, db.comics[k].slug)))
    case None =>
      if dryRun then (db, None)
      else
        var genre := GenreFirstOrCreate(db, DefaultGenreSlug, DefaultGenreName);
        var slug := CreatingSlug(fns.slug(name), name, fns, |genre.0.comics| + 1);
        var db' := genre.0.(comics := genre.0.comics + [Comic(slug, name, None, genre.1)], writes := genre.0.writes + 1);
        (db', Some(ComicRef(|db'.comics|, slug)))
  }

  /** A comic the command creates is found again on the next run, by its title,
      so a second live run creates no second comic for the same folder. */
  lemma ResolveComicIdempotent(db: Db, name: string, fns: StrFns)
    ensures var r := ResolveComic(db, name, false, fns);
      ResolveComic(r.0, name, false, fns) == r
  {
    var r := ResolveComic(db, name, false, fns);
    if FindComic(db, name, fns).None? {
      var k := r.1.value.id - 1;
      assert r.0.comics[..k] == db.comics;
      assert SlugOrTitleIs(fns.slug(name), name)(r.0.comics[k]);
      assert FindComic(r.0, name, fns) == Some(k);
    }
  }

  // ---------------------------------------------------------------- chapter lookup

  /** `max('number')` over the comic's chapters; None when it has none. */
  function MaxNumber(chs: seq<Chapter>, comicId: nat): (r: Option<int>)
    ensures r.None? <==> forall j :: 0 <= j < |chs| ==> chs[j].comicId != comicId
    ensures r.Some? ==> exists j :: 0 <= j < |chs| && chs[j].comicId == comicId && chs[j].number == r.value
    ensures r.Some? ==> forall j :: 0 <= j < |chs| && chs[j].comicId == comicId ==> chs[j].number <= r.value
  {
    if chs == [] then None
    else
      var init, last := chs[..|chs| - 1], chs[|chs| - 1];
      var m := MaxNumber(init, comicId);
      assert forall j :: 0 <= j < |init| ==> chs[j] == init[j];
      if last.comicId != comicId then m
      else if m.None? || m.value < last.number then Some(last.number)
      else m
  }

  /** `(int)(max('number') ?? 0) + 1`: one more than the largest number the comic
      already has (above every one of them, and r - 1 is one of them), and 1 for
      a comic without chapters. */
  function NextChapterNumber(db: Db, comicId: nat): (r: int)
    ensures forall j :: 0 <= j < |db.chapters| && db.chapters[j].comicId == comicId ==> db.chapters[j].number < r
    ensures (exists j :: 0 <= j < |db.chapters| && db.chapters[j].comicId == comicId) ==>
      exists j :: 0 <= j < |db.chapters| && db.chapters[j].comicId == comicId && db.chapters[j].number == r - 1
    ensures (forall j :: 0 <= j < |db.chapters| ==> db.chapters[j].comicId != comicId) ==> r == 1
  {
    match MaxNumber(db.chapters, comicId)
    case None => 1
    case Some(m) => m + 1
  }

  /** The chapter of a folder: looked up by (comic_id, number) when both are
      known; otherwise, outside dry-run and with a comic, created with the
      parsed number, or with the next free number when the name has no digit,
      and titled with the folder name; else none. */
  function ResolveChapter(db: Db, comic: Option<ComicRef>, name: string, number: Option<nat>, dryRun: bool): (r: (Db, Option<ChapterRef>))
    ensures r.1.Some? ==> (comic.Some? && 1 <= r.1.value.id <= |r.0.chapters| &&
      r.0.chapters[r.1.value.id - 1].comicId == comic.value.id && r.0.chapters[r.1.value.id - 1].number == r.1.value.number)
    ensures r.1.Some? && number.Some? ==> r.1.value.number == number.value
    ensures r.1.None? <==> comic.None? || (dryRun && (number.None? || ChapterByKey(db, comic.value.id, number.value).None?))
    ensures r.1.None? || dryRun ==> r.0 == db
    ensures r.0.comics == db.comics && r.0.genres == db.genres && r.0.pages == db.pages
    ensures db.chapters <= r.0.chapters
  {
    var found := if comic.Some? && number.Some? then ChapterByKey(db, comic.value.id, number.value) else None;
    match found
    case Some(i) => (db, Some(ChapterRef(i + 1, db.chapters[i].number)))
    case None =>
      if !dryRun && comic.Some? then
        var n := if number.Some? then number.value else NextChapterNumber(db, comic.value.id);
        var db' := db.(chapters := db.chapters + [Chapter(comic.value.id, n, Some(name))], writes := db.writes + 1);
        (db', Some(ChapterRef(|db'.chapters|, n)))
      else (db, None)
  }

  /** A numbered folder's chapter is found again on the next run. */
  lemma ResolveChapterIdempotent(db: Db, comic: ComicRef, name: string, n: nat)
    ensures var r := ResolveChapter(db, Some(comic), name, Some(n), false);
      ResolveChapter(r.0, Some(comic), name, Some(n), false) == r
  {
    var r := ResolveChapter(db, Some(comic), name, Some(n), false);
    if ChapterByKey(db, comic.id, n).None? {
      var c := Chapter(comic.id, n, Some(name));
      ChapterIndexAppend(db.chapters, c, comic.id, n);
    }
  }

  /** A folder whose name has no digit gets a new chapter on every live run,
      numbered above all of the comic's chapters: running the command twice
      leaves two chapters for it. */
  lemma DigitlessFolderAddsChapterEachRun(db: Db, comic: ComicRef, name: string)
    requires forall i :: 0 <= i < |name| ==> !IsDigit(name[i])
    ensures var r1 := ResolveChapter(db, Some(comic), name, ChapterNumberOf(name), false);
      var r2 := ResolveChapter(r1.0, Some(comic), name, ChapterNumberOf(name), false);
      |r1.0.chapters| == |db.chapters| + 1 && |r2.0.chapters| == |db.chapters| + 2 &&
      r1.1.value.number == NextChapterNumber(db, comic.id) &&
      r2.1.value.number == r1.1.value.number + 1
  {
    var r1 := ResolveChapter(db, Some(comic), name, None, false);
    var m := NextChapterNumber(r1.0, comic.id);
    var k := |db.chapters|;
    assert r1.0.chapters[k].comicId == comic.id;
    assert m > r1.1.value.number;
  }

  // ---------------------------------------------------------------- target path

  /** The chapter segment of the target path: the chapter's number, else the
      parsed number, else "unknown". */
  function ChapterSegment(chapter: Option<ChapterRef>, number: Option<nat>): (r: string)
    ensures r == "unknown" <==> chapter.None? && number.None?
  {
    if chapter.Some? then IntToString(chapter.value.number)
    else if number.Some? then NatToString(number.value)
    else "unknown"
  }

  /** comics/{slug}/chapter-{n}/{file}, with slug(folder) when there is no comic. */
  function TargetPath(comic: Option<ComicRef>, comicName: string, chapter: Option<ChapterRef>, number: Option<nat>,
                      file: string, fns: StrFns): string
  {
    var slug := if comic.Some? then comic.value.slug else fns.slug(comicName);
    "comics/" + slug + "/chapter-" + ChapterSegment(chapter, number) + "/" + file
  }

  /** The uploaded object keeps the file's own name as its last segment. */
  lemma TargetPathKeepsFileName(comic: Option<ComicRef>, comicName: string, chapter: Option<ChapterRef>,
                                number: Option<nat>, file: string, fns: StrFns)
    requires '/' !in file
    ensures Basename(TargetPath(comic, comicName, chapter, number, file, fns)) == file
  {
    var slug := if comic.Some? then comic.value.slug else fns.slug(comicName);
    var dir := "comics/" + slug + "/chapter-" + ChapterSegment(chapter, number);
    BasenameOfJoin(dir, file);
  }

  // ---------------------------------------------------------------- page upsert

  /** Page::where(chapter_id, page_number)->first(), then update(['image_path'])
      or Page::create. */
  function UpsertPage(db: Db, chapterId: nat, n: int, path: string): (r: Db)
    ensures PageByKey(r, chapterId, n).Some? && r.pages[PageByKey(r, chapterId, n).value].imagePath == path
    ensures UniquePageKeys(db.pages) ==> UniquePageKeys(r.pages)
    ensures r == db.(pages := r.pages, writes := r.writes)
  {
    match PageByKey(db, chapterId, n)
    case Some(i) =>
      var r := SetPageImagePath(db, i, path);
      PageByKeyStable(db, r, chapterId, n);
      r
    case None =>
      var p := Page(chapterId, n, path, None, None);
      PageIndexAppend(db.pages, p, chapterId, n);
      InsertPage(db, p)
  }

  /** Upserting the same path again issues no statement. */
  lemma UpsertPageIdempotent(db: Db, chapterId: nat, n: int, path: string)
    ensures var r := UpsertPage(db, chapterId, n, path);
      UpsertPage(r, chapterId, n, path) == r
  {
  }

  /** The page number of a file: (int) of its name without the extension. */
  function FilePageNumber(file: string): int
  {
    IntCast(FilenameWithoutExtension(file))
  }

  // ---------------------------------------------------------------- one step each

  /** One file: outside dry-run it is uploaded to its target and, when there is
      a chapter, its Page row is upserted; in dry-run nothing happens. */
  function FileStep(st: Store, chapter: Option<ChapterRef>, target: string, file: string, dryRun: bool): Store
  {
    if dryRun then st
    else
      var st1 := st.(uploads := st.uploads + [target]);
      match chapter
      case None => st1
      case Some(ch) => st1.(db := UpsertPage(st1.db, ch.id, FilePageNumber(file), target))
  }

  function FilesFold(st: Store, comic: Option<ComicRef>, comicName: string, chapter: Option<ChapterRef>,
                     number: Option<nat>, files: seq<string>, dryRun: bool, fns: StrFns): Store
  {
    if files == [] then st
    else
      var file := files[|files| - 1];
      FileStep(FilesFold(st, comic, comicName, chapter, number, files[..|files| - 1], dryRun, fns),
               chapter, TargetPath(comic, comicName, chapter, number, file, fns), file, dryRun)
  }

  /** One chapter folder: its number, its chapter, then its files. */
  function ChapterDirStep(st: Store, comic: Option<ComicRef>, comicName: string, d: LocalChapter, dryRun: bool, fns: StrFns): Store
  {
    var number := ChapterNumberOf(d.name);
    var resolved := ResolveChapter(st.db, comic, d.name, number, dryRun);
    FilesFold(st.(db := resolved.0), comic, comicName, resolved.1, number, d.files, dryRun, fns)
  }

  function ChapterDirsFold(st: Store, comic: Option<ComicRef>, comicName: string, ds: seq<LocalChapter>, dryRun: bool, fns: StrFns): Store
  {
    if ds == [] then st
    else ChapterDirStep(ChapterDirsFold(st, comic, comicName, ds[..|ds| - 1], dryRun, fns), comic, comicName, ds[|ds| - 1], dryRun, fns)
  }

  /** One comic folder: its comic, then its chapter folders. */
  function ComicDirStep(st: Store, c: LocalComic, dryRun: bool, fns: StrFns): Store
  {
    var resolved := ResolveComic(st.db, c.name, dryRun, fns);
    ChapterDirsFold(st.(db := resolved.0), resolved.1, c.name, c.chapters, dryRun, fns)
  }

  function ComicDirsFold(st: Store, cs: seq<LocalComic>, dryRun: bool, fns: StrFns): Store
  {
    if cs == [] then st
    else ComicDirStep(ComicDirsFold(st, cs[..|cs| - 1], dryRun, fns), cs[|cs| - 1], dryRun, fns)
  }

  /** strcasecmp($d, $filter) === 0. */
  function NameIs(filter: string): LocalComic -> bool
  {
    (c: LocalComic) => EqualIgnoringCase(c.name, filter)
  }

  /** The comic folders processed: all of them, or with a (truthy) --comic
      option only those equal to it up to case. */
  function Selected(comics: seq<LocalComic>, filter: Option<string>): (r: seq<LocalComic>)
    ensures Present(filter) ==> forall c :: c in r <==> c in comics && EqualIgnoringCase(c.name, filter.value)
    ensures !Present(filter) ==> r == comics
  {
    if Present(filter) then
      var r := Filter(comics, NameIs(filter.value));
      assert forall c :: NameIs(filter.value)(c) == EqualIgnoringCase(c.name, filter.value);
      r
    else comics
  }

  /** The whole command: exit code 1, with nothing uploaded or written, when the
      path is not a directory or the --comic option names no folder; otherwise
      every selected comic folder is processed in listing order. */
  function Run(st: Store, tree: LocalTree, filter: Option<string>, dryRun: bool, fns: StrFns): (r: (int, Store))
    ensures r.0 == 1 <==> (!tree.isDir ||
      (Present(filter) && forall c :: c in tree.comics ==> !EqualIgnoringCase(c.name, filter.value)))
    ensures r.0 == 0 || r.0 == 1
    ensures r.0 == 1 ==> r.1 == st
  {
    if !tree.isDir then (1, st)
    else
      var dirs := Selected(tree.comics, filter);
      if Present(filter) && dirs == [] then (1, st)
      else
        assert Present(filter) && (forall c :: c in tree.comics ==> !EqualIgnoringCase(c.name, filter.value)) ==> dirs == [] by {
          if Present(filter) && dirs != [] {
            assert dirs[0] in dirs;
          }
        }
        (0, ComicDirsFold(st, dirs, dryRun, fns))
  }

  // ---------------------------------------------------------------- dry run

  lemma {:induction false} FilesFoldDry(st: Store, comic: Option<ComicRef>, comicName: string, chapter: Option<ChapterRef>,
                                        number: Option<nat>, files: seq<string>, fns: StrFns)
    ensures FilesFold(st, comic, comicName, chapter, number, files, true, fns) == st
  {
    if files != [] {
      FilesFoldDry(st, comic, comicName, chapter, number, files[..|files| - 1], fns);
    }
  }

  lemma {:induction false} ChapterDirsFoldDry(st: Store, comic: Option<ComicRef>, comicName: string, ds: seq<LocalChapter>, fns: StrFns)
    ensures ChapterDirsFold(st, comic, comicName, ds, true, fns) == st
  {
    if ds != [] {
      var mid := ChapterDirsFold(st, comic, comicName, ds[..|ds| - 1], true, fns);
      ChapterDirsFoldDry(st, comic, comicName, ds[..|ds| - 1], fns);
      var d := ds[|ds| - 1];
      var resolved := ResolveChapter(mid.db, comic, d.name, ChapterNumberOf(d.name), true);
      FilesFoldDry(mid.(db := resolved.0), comic, comicName, resolved.1, ChapterNumberOf(d.name), d.files, fns);
    }
  }

  lemma {:induction false} ComicDirsFoldDry(st: Store, cs: seq<LocalComic>, fns: StrFns)
    ensures ComicDirsFold(st, cs, true, fns) == st
  {
    if cs != [] {
      var mid := ComicDirsFold(st, cs[..|cs| - 1], true, fns);
      ComicDirsFoldDry(st, cs[..|cs| - 1], fns);
      var c := cs[|cs| - 1];
      var resolved := ResolveComic(mid.db, c.name, true, fns);
      ChapterDirsFoldDry(mid.(db := resolved.0), resolved.1, c.name, c.chapters, fns);
    }
  }

  /** A dry run uploads nothing and issues no statement: the catalogue and the
      disk are exactly as before. */
  lemma DryRunChangesNothing(st: Store, tree: LocalTree, filter: Option<string>, fns: StrFns)
    ensures Run(st, tree, filter, true, fns).1 == st
  {
    if tree.isDir {
      ComicDirsFoldDry(st, Selected(tree.comics, filter), fns);
    }
  }

  // ---------------------------------------------------------------- a live run uploads every file once

  function ChapterFileCount(ds: seq<LocalChapter>): nat
  {
    if ds == [] then 0 else ChapterFileCount(ds[..|ds| - 1]) + |ds[|ds| - 1].files|
  }

  function FileCount(cs: seq<LocalComic>): nat
  {
    if cs == [] then 0 else FileCount(cs[..|cs| - 1]) + ChapterFileCount(cs[|cs| - 1].chapters)
  }

  lemma {:induction false} FilesFoldLiveUploads(st: Store, comic: Option<ComicRef>, comicName: string, chapter: Option<ChapterRef>,
                                                number: Option<nat>, files: seq<string>, fns: StrFns)
    ensures var r := FilesFold(st, comic, comicName, chapter, number, files, false, fns);
      |r.uploads| == |st.uploads| + |files| && st.uploads <= r.uploads
  {
    if files != [] {
      FilesFoldLiveUploads(st, comic, comicName, chapter, number, files[..|files| - 1], fns);
    }
  }

  lemma {:induction false} ChapterDirsFoldLiveUploads(st: Store, comic: Option<ComicRef>, comicName: string, ds: seq<LocalChapter>, fns: StrFns)
    ensures var r := ChapterDirsFold(st, comic, comicName, ds, false, fns);
      |r.uploads| == |st.uploads| + ChapterFileCount(ds) && st.uploads <= r.uploads
  {
    if ds != [] {
      var mid := ChapterDirsFold(st, comic, comicName, ds[..|ds| - 1], false, fns);
      ChapterDirsFoldLiveUploads(st, comic, comicName, ds[..|ds| - 1], fns);
      var d := ds[|ds| - 1];
      var resolved := ResolveChapter(mid.db, comic, d.name, ChapterNumberOf(d.name), false);
      FilesFoldLiveUploads(mid.(db := resolved.0), comic, comicName, resolved.1, ChapterNumberOf(d.name), d.files, fns);
    }
  }

  lemma {:induction false} ComicDirsFoldLiveUploads(st: Store, cs: seq<LocalComic>, fns: StrFns)
    ensures var r := ComicDirsFold(st, cs, false, fns);
      |r.uploads| == |st.uploads| + FileCount(cs) && st.uploads <= r.uploads
  {
    if cs != [] {
      var mid := ComicDirsFold(st, cs[..|cs| - 1], false, fns);
      ComicDirsFoldLiveUploads(st, cs[..|cs| - 1], fns);
      var c := cs[|cs| - 1];
      var resolved := ResolveComic(mid.db, c.name, false, fns);
      ChapterDirsFoldLiveUploads(mid.(db := resolved.0), resolved.1, c.name, c.chapters, fns);
    }
  }

  /** A live run that gets going puts exactly one object per file of the
      selected comic folders, after what was there. */
  lemma LiveRunUploadsEveryFile(st: Store, tree: LocalTree, filter: Option<string>, fns: StrFns)
    requires Run(st, tree, filter, false, fns).0 == 0
    ensures var r := Run(st, tree, filter, false, fns).1;
      |r.uploads| == |st.uploads| + FileCount(Selected(tree.comics, filter)) && st.uploads <= r.uploads
  {
    ComicDirsFoldLiveUploads(st, Selected(tree.comics, filter), fns);
  }

  // ---------------------------------------------------------------- one row per key

  /** A created chapter never repeats a (comic_id, number) key: a parsed number
      is only used after the lookup failed, and a generated one is above every
      number the comic has. */
  lemma ResolveChapterKeepsKeysUnique(db: Db, comic: Option<ComicRef>, name: string, number: Option<nat>, dryRun: bool)
    requires UniqueChapterKeys(db)
    ensures UniqueChapterKeys(ResolveChapter(db, comic, name, number, dryRun).0)
  {
    var r := ResolveChapter(db, comic, name, number, dryRun);
    if |r.0.chapters| > |db.chapters| {
      var k := |db.chapters|;
      assert r.0.chapters[..k] == db.chapters;
      forall i | 0 <= i < k
        ensures !(r.0.chapters[i].comicId == r.0.chapters[k].comicId && r.0.chapters[i].number == r.0.chapters[k].number)
      {
        assert r.0.chapters[i] == db.chapters[i];
      }
    }
  }

  ghost predicate UniqueKeys(st: Store)
  {
    UniqueChapterKeys(st.db) && UniquePageKeys(st.db.pages)
  }

  lemma {:induction false} FilesFoldKeepsKeysUnique(st: Store, comic: Option<ComicRef>, comicName: string, chapter: Option<ChapterRef>,
                                                    number: Option<nat>, files: seq<string>, dryRun: bool, fns: StrFns)
    requires UniqueKeys(st)
    ensures var r := FilesFold(st, comic, comicName, chapter, number, files, dryRun, fns);
      UniqueKeys(r) && r.db.chapters == st.db.chapters
  {
    if files != [] {
      FilesFoldKeepsKeysUnique(st, comic, comicName, chapter, number, files[..|files| - 1], dryRun, fns);
    }
  }

  lemma ChapterDirStepKeepsKeysUnique(st: Store, comic: Option<ComicRef>, comicName: string, d: LocalChapter, dryRun: bool, fns: StrFns)
    requires UniqueKeys(st)
    ensures UniqueKeys(ChapterDirStep(st, comic, comicName, d, dryRun, fns))
  {
    var number := ChapterNumberOf(d.name);
    var resolved := ResolveChapter(st.db, comic, d.name, number, dryRun);
    ResolveChapterKeepsKeysUnique(st.db, comic, d.name, number, dryRun);
    FilesFoldKeepsKeysUnique(st.(db := resolved.0), comic, comicName, resolved.1, number, d.files, dryRun, fns);
  }

  lemma {:induction false} ChapterDirsFoldKeepsKeysUnique(st: Store, comic: Option<ComicRef>, comicName: string, ds: seq<LocalChapter>, dryRun: bool, fns: StrFns)
    requires UniqueKeys(st)
    ensures UniqueKeys(ChapterDirsFold(st, comic, comicName, ds, dryRun, fns))
  {
    if ds != [] {
      ChapterDirsFoldKeepsKeysUnique(st, comic, comicName, ds[..|ds| - 1], dryRun, fns);
      ChapterDirStepKeepsKeysUnique(ChapterDirsFold(st, comic, comicName, ds[..|ds| - 1], dryRun, fns), comic, comicName, ds[|ds| - 1], dryRun, fns);
    }
  }

  lemma {:induction false} ComicDirsFoldKeepsKeysUnique(st: Store, cs: seq<LocalComic>, dryRun: bool, fns: StrFns)
    requires UniqueKeys(st)
    ensures UniqueKeys(ComicDirsFold(st, cs, dryRun, fns))
  {
    if cs != [] {
      var mid := ComicDirsFold(st, cs[..|cs| - 1], dryRun, fns);
      ComicDirsFoldKeepsKeysUnique(st, cs[..|cs| - 1], dryRun, fns);
      var c := cs[|cs| - 1];
      var resolved := ResolveComic(mid.db, c.name, dryRun, fns);
      ChapterDirsFoldKeepsKeysUnique(mid.(db := resolved.0), resolved.1, c.name, c.chapters, dryRun, fns);
    }
  }

  /** The command never makes a second chapter with the same (comic_id, number)
      nor a second page with the same (chapter_id, page_number). */
  lemma RunKeepsKeysUnique(st: Store, tree: LocalTree, filter: Option<string>, dryRun: bool, fns: StrFns)
    requires UniqueKeys(st)
    ensures UniqueKeys(Run(st, tree, filter, dryRun, fns).1)
  {
    if tree.isDir {
      ComicDirsFoldKeepsKeysUnique(st, Selected(tree.comics, filter), dryRun, fns);
    }
  }

  // ---------------------------------------------------------------- the command

  lemma FilesFoldSnoc(st: Store, comic: Option<ComicRef>, comicName: string, chapter: Option<ChapterRef>,
                      number: Option<nat>, files: seq<string>, m: nat, dryRun: bool, fns: StrFns)
    requires m < |files|
    ensures FilesFold(st, comic, comicName, chapter, number, files[..m + 1], dryRun, fns) ==
      FileStep(FilesFold(st, comic, comicName, chapter, number, files[..m], dryRun, fns),
               chapter, TargetPath(comic, comicName, chapter, number, files[m], fns), files[m], dryRun)
  {
    assert files[..m + 1][..m] == files[..m];
  }

  lemma ChapterDirsFoldSnoc(st: Store, comic: Option<ComicRef>, comicName: string, ds: seq<LocalChapter>, j: nat, dryRun: bool, fns: StrFns)
    requires j < |ds|
    ensures ChapterDirsFold(st, comic, comicName, ds[..j + 1], dryRun, fns) ==
      ChapterDirStep(ChapterDirsFold(st, comic, comicName, ds[..j], dryRun, fns), comic, comicName, ds[j], dryRun, fns)
  {
    assert ds[..j + 1][..j] == ds[..j];
  }

  lemma ComicDirsFoldSnoc(st: Store, cs: seq<LocalComic>, i: nat, dryRun: bool, fns: StrFns)
    requires i < |cs|
    ensures ComicDirsFold(st, cs[..i + 1], dryRun, fns) == ComicDirStep(ComicDirsFold(st, cs[..i], dryRun, fns), cs[i], dryRun, fns)
  {
    assert cs[..i + 1][..i] == cs[..i];
  }

  /** The body of the loop over files: upload, then update or create the Page row. */
  method SyncFile(st0: Store, chapter: Option<ChapterRef>, azurePath: string, file: string, dryRun: bool) returns (st: Store)
    ensures st == FileStep(st0, chapter, azurePath, file, dryRun)
  {
    st := st0;
    if !dryRun {
      st := st.(uploads := st.uploads + [azurePath]);
      if chapter.Some? {
        var pageNumber := FilePageNumber(file);
        var pageModel := PageByKey(st.db, chapter.value.id, pageNumber);
        if pageModel.Some? {
          st := st.(db := SetPageImagePath(st.db, pageModel.value, azurePath));
        } else {
          st := st.(db := InsertPage(st.db, Page(chapter.value.id, pageNumber, azurePath, None, None)));
        }
      }
    }
  }

  /** The body of the loop over files: the Azure path, then the file's step. */
  method SyncFileAt(st0: Store, comic: Option<ComicRef>, comicName: string, chapter: Option<ChapterRef>,
                    number: Option<nat>, file: string, dryRun: bool, fns: StrFns) returns (st: Store)
    ensures st == FileStep(st0, chapter, TargetPath(comic, comicName, chapter, number, file, fns), file, dryRun)
  {
    var comicSlug := if comic.Some? then comic.value.slug else fns.slug(comicName);
    var azurePath := "comics/" + comicSlug + "/chapter-" + ChapterSegment(chapter, number) + "/" + file;
    st := SyncFile(st0, chapter, azurePath, file, dryRun);
  }

  /** The loop over the files of a chapter folder. */
  method SyncFiles(st0: Store, comic: Option<ComicRef>, comicName: string, chapter: Option<ChapterRef>,
                   number: Option<nat>, files: seq<string>, dryRun: bool, fns: StrFns) returns (st: Store)
    ensures st == FilesFold(st0, comic, comicName, chapter, number, files, dryRun, fns)
  {
    st := st0;
    var m := 0;
    while m < |files|
      invariant 0 <= m <= |files|
      invariant st == FilesFold(st0, comic, comicName, chapter, number, files[..m], dryRun, fns)
    {
      st := SyncFileAt(st, comic, comicName, chapter, number, files[m], dryRun, fns);
      FilesFoldSnoc(st0, comic, comicName, chapter, number, files, m, dryRun, fns);
      m := m + 1;
    }
    assert files[..m] == files;
  }

  /** The loop over the chapter folders of a comic folder. */
  method SyncChapterDirs(st0: Store, comic: Option<ComicRef>, comicName: string, ds: seq<LocalChapter>, dryRun: bool, fns: StrFns)
    returns (st: Store)
    ensures st == ChapterDirsFold(st0, comic, comicName, ds, dryRun, fns)
  {
    st := st0;
    var j := 0;
    while j < |ds|
      invariant 0 <= j <= |ds|
      invariant st == ChapterDirsFold(st0, comic, comicName, ds[..j], dryRun, fns)
    {
      ChapterDirsFoldSnoc(st0, comic, comicName, ds, j, dryRun, fns);
      st := SyncChapterDir(st, comic, comicName, ds[j], dryRun, fns);
      j := j + 1;
    }
    assert ds[..j] == ds;
  }

  /** The body of the chapter-folder loop: the chapter number of the folder
      name, the chapter row, then the folder's files. */
  method SyncChapterDir(st0: Store, comic: Option<ComicRef>, comicName: string, d: LocalChapter, dryRun: bool, fns: StrFns)
    returns (st: Store)
    ensures st == ChapterDirStep(st0, comic, comicName, d, dryRun, fns)
  {
    var chapterNumber := ChapterNumberOf(d.name);
    var resolved := ResolveChapter(st0.db, comic, d.name, chapterNumber, dryRun);
    st := SyncFiles(st0.(db := resolved.0), comic, comicName, resolved.1, chapterNumber, d.files, dryRun, fns);
  }

  /** The body of the comic-folder loop: the Comic row, then its chapter folders. */
  method SyncComicDir(st0: Store, c: LocalComic, dryRun: bool, fns: StrFns) returns (st: Store)
    ensures st == ComicDirStep(st0, c, dryRun, fns)
  {
    var resolved := ResolveComic(st0.db, c.name, dryRun, fns);
    st := SyncChapterDirs(st0.(db := resolved.0), resolved.1, c.name, c.chapters, dryRun, fns);
  }

  /** handle(): the path check, the --comic filter and the walk. */
  method Handle(st0: Store, tree: LocalTree, filter: Option<string>, dryRun: bool, fns: StrFns) returns (code: int, st: Store)
    ensures (code, st) == Run(st0, tree, filter, dryRun, fns)
  {
    st := st0;
    if !tree.isDir {
      return 1, st;
    }
    var comicDirs := Selected(tree.comics, filter);
    if Present(filter) && comicDirs == [] {
      return 1, st;
    }
    var i := 0;
    while i < |comicDirs|
      invariant 0 <= i <= |comicDirs|
      invariant st == ComicDirsFold(st0, comicDirs[..i], dryRun, fns)
    {
      st := SyncComicDir(st, comicDirs[i], dryRun, fns);
      ComicDirsFoldSnoc(st0, comicDirs, i, dryRun, fns);
      i := i + 1;
    }
    assert comicDirs[..i] == comicDirs;
    code := 0;
  }
}
