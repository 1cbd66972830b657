/** The relational catalogue the commands reconcile against storage: genres,
    comics, chapters, pages and covers. Each table is a sequence of rows in
    insertion order; a row's id is its position plus one (auto-increment), so
    `->first()` is the matching row of least id. `writes` counts the INSERT and
    UPDATE statements issued, so "no writes" is "the counter did not move". */
module Catalog {
  import opened Text

  datatype Genre = Genre(slug: string, name: string)

  datatype Comic = Comic(slug: string, title: string, coverPath: Option<string>, genreId: nat)

  datatype Chapter = Chapter(comicId: nat, number: int, title: Option<string>)

  /** `disk` and `extension` are None until a command sets them. */
  datatype Page = Page(chapterId: nat, pageNumber: int, imagePath: string, disk: Option<string>, extension: Option<string>)

  datatype Cover = Cover(comicId: nat, path: string, filename: string, size: nat, disk: string, isPrimary: bool)

  datatype Db = Db(genres: seq<Genre>, comics: seq<Comic>, chapters: seq<Chapter>,
                   pages: seq<Page>, covers: seq<Cover>, writes: nat)

  // ---------------------------------------------------------------- `where(...)->first()`

  /** The position of the first row satisfying p. */
  function FirstWhere<T>(s: seq<T>, p: T -> bool): (r: Option<nat>)
    ensures r.Some? ==> r.value < |s| && p(s[r.value]) && forall j :: 0 <= j < r.value ==> !p(s[j])
    ensures r.None? ==> forall j :: 0 <= j < |s| ==> !p(s[j])
    decreases |s|
  {
    if s == [] then None
    else if p(s[0]) then Some(0)
    else match FirstWhere(s[1..], p)
      case None => None
      case Some(k) => Some(k + 1)
  }

  /** Appending a row does not move a match that already existed. */
  lemma {:induction false} FirstWhereAppend<T>(s: seq<T>, x: T, p: T -> bool)
    ensures FirstWhere(s + [x], p) ==
      if FirstWhere(s, p).Some? then FirstWhere(s, p) else if p(x) then Some(|s|) else None
    decreases |s|
  {
    if s != [] {
      assert (s + [x])[0] == s[0];
      assert (s + [x])[1..] == s[1..] + [x];
      FirstWhereAppend(s[1..], x, p);
    }
  }

  /** Tables whose rows agree on the predicate agree on the first match. */
  lemma {:induction false} FirstWhereSame<T>(s1: seq<T>, s2: seq<T>, p1: T -> bool, p2: T -> bool)
    requires |s1| == |s2|
    requires forall j :: 0 <= j < |s1| ==> p1(s1[j]) == p2(s2[j])
    ensures FirstWhere(s1, p1) == FirstWhere(s2, p2)
    decreases |s1|
  {
    if s1 != [] {
      assert p1(s1[0]) == p2(s2[0]);
      FirstWhereSame(s1[1..], s2[1..], p1, p2);
    }
  }

  /** A match survives when rows are appended or changed in ways the predicate
      does not see. */
  lemma FirstWhereStable<T>(s: seq<T>, s': seq<T>, p: T -> bool)
    requires FirstWhere(s, p).Some?
    requires |s| <= |s'|
    requires forall j :: 0 <= j < |s| ==> p(s'[j]) == p(s[j])
    ensures FirstWhere(s', p) == FirstWhere(s, p)
  {
    var k := FirstWhere(s, p).value;
    assert p(s'[k]);
  }

  /** The position of the first genre with this slug. */
  function GenreIndex(gs: seq<Genre>, slug: string): (r: Option<nat>)
    ensures r.Some? ==> r.value < |gs| && gs[r.value].slug == slug && forall j :: 0 <= j < r.value ==> gs[j].slug != slug
    ensures r.None? ==> forall j :: 0 <= j < |gs| ==> gs[j].slug != slug
  {
    FirstWhere(gs, (g: Genre) => g.slug == slug)
  }

  /** The position of the first comic with this slug. */
  function ComicIndex(cs: seq<Comic>, slug: string): (r: Option<nat>)
    ensures r.Some? ==> r.value < |cs| && cs[r.value].slug == slug && forall j :: 0 <= j < r.value ==> cs[j].slug != slug
    ensures r.None? ==> forall j :: 0 <= j < |cs| ==> cs[j].slug != slug
  {
    if cs == [] then None
    else if cs[0].slug == slug then Some(0)
    else match ComicIndex(cs[1..], slug)
      case None => None
      case Some(k) => Some(k + 1)
  }

  predicate ChapterKeyIs(c: Chapter, comicId: nat, number: int)
  {
    c.comicId == comicId && c.number == number
  }

  /** The position of the first chapter with this (comic_id, number). */
  function ChapterIndex(cs: seq<Chapter>, comicId: nat, number: int): (r: Option<nat>)
    ensures r.Some? ==> (r.value < |cs| && ChapterKeyIs(cs[r.value], comicId, number) &&
      forall j :: 0 <= j < r.value ==> !ChapterKeyIs(cs[j], comicId, number))
    ensures r.None? ==> forall j :: 0 <= j < |cs| ==> !ChapterKeyIs(cs[j], comicId, number)
  {
    if cs == [] then None
    else if ChapterKeyIs(cs[0], comicId, number) then Some(0)
    else match ChapterIndex(cs[1..], comicId, number)
      case None => None
      case Some(k) => Some(k + 1)
  }

  predicate PageKeyIs(p: Page, chapterId: nat, number: int)
  {
    p.chapterId == chapterId && p.pageNumber == number
  }

  /** The position of the first page with this (chapter_id, page_number). */
  function PageIndex(ps: seq<Page>, chapterId: nat, number: int): (r: Option<nat>)
    ensures r.Some? ==> (r.value < |ps| && PageKeyIs(ps[r.value], chapterId, number) &&
      forall j :: 0 <= j < r.value ==> !PageKeyIs(ps[j], chapterId, number))
    ensures r.None? ==> forall j :: 0 <= j < |ps| ==> !PageKeyIs(ps[j], chapterId, number)
  {
    if ps == [] then None
    else if PageKeyIs(ps[0], chapterId, number) then Some(0)
    else match PageIndex(ps[1..], chapterId, number)
      case None => None
      case Some(k) => Some(k + 1)
  }

  /** Appending a row does not move a match that already existed. */
  lemma GenreIndexAppend(gs: seq<Genre>, g: Genre, slug: string)
    ensures GenreIndex(gs + [g], slug) ==
      if GenreIndex(gs, slug).Some? then GenreIndex(gs, slug) else if g.slug == slug then Some(|gs|) else None
  {
    assert forall j :: 0 <= j < |gs| ==> (gs + [g])[j] == gs[j];
    assert (gs + [g])[|gs|] == g;
  }

  lemma ComicIndexAppend(cs: seq<Comic>, c: Comic, slug: string)
    ensures ComicIndex(cs + [c], slug) ==
      if ComicIndex(cs, slug).Some? then ComicIndex(cs, slug) else if c.slug == slug then Some(|cs|) else None
  {
    assert forall j :: 0 <= j < |cs| ==> (cs + [c])[j] == cs[j];
    assert (cs + [c])[|cs|] == c;
  }

  lemma ChapterIndexAppend(cs: seq<Chapter>, c: Chapter, comicId: nat, number: int)
    ensures ChapterIndex(cs + [c], comicId, number) ==
      if ChapterIndex(cs, comicId, number).Some? then ChapterIndex(cs, comicId, number)
      else if ChapterKeyIs(c, comicId, number) then Some(|cs|) else None
  {
    assert forall j :: 0 <= j < |cs| ==> (cs + [c])[j] == cs[j];
    assert (cs + [c])[|cs|] == c;
  }

  lemma PageIndexAppend(ps: seq<Page>, p: Page, chapterId: nat, number: int)
    ensures PageIndex(ps + [p], chapterId, number) ==
      if PageIndex(ps, chapterId, number).Some? then PageIndex(ps, chapterId, number)
      else if PageKeyIs(p, chapterId, number) then Some(|ps|) else None
  {
    assert forall j :: 0 <= j < |ps| ==> (ps + [p])[j] == ps[j];
    assert (ps + [p])[|ps|] == p;
  }

  /** Tables whose rows agree on the key agree on the first match. */
  lemma ComicIndexSame(a: seq<Comic>, b: seq<Comic>, slug: string)
    requires |a| == |b| && forall j :: 0 <= j < |a| ==> a[j].slug == b[j].slug
    ensures ComicIndex(a, slug) == ComicIndex(b, slug)
  {
  }

  lemma PageIndexSame(a: seq<Page>, b: seq<Page>, chapterId: nat, number: int)
    requires |a| == |b| && forall j :: 0 <= j < |a| ==> a[j].chapterId == b[j].chapterId && a[j].pageNumber == b[j].pageNumber
    ensures PageIndex(a, chapterId, number) == PageIndex(b, chapterId, number)
  {
  }

  /** Genre::where('slug', slug)->first(), as a position. */
  function GenreBySlug(db: Db, slug: string): (r: Option<nat>)
    ensures r.Some? ==> r.value < |db.genres| && db.genres[r.value].slug == slug
    ensures r.None? ==> forall j :: 0 <= j < |db.genres| ==> db.genres[j].slug != slug
  {
    GenreIndex(db.genres, slug)
  }

  /** Comic::where('slug', slug)->first(), as a position. */
  function ComicBySlug(db: Db, slug: string): (r: Option<nat>)
    ensures r.Some? ==> r.value < |db.comics| && db.comics[r.value].slug == slug
    ensures r.Some? ==> forall j :: 0 <= j < r.value ==> db.comics[j].slug != slug
    ensures r.None? ==> forall j :: 0 <= j < |db.comics| ==> db.comics[j].slug != slug
  {
    ComicIndex(db.comics, slug)
  }

  /** Chapter::where('comic_id', id)->where('number', n)->first(), as a position. */
  function ChapterByKey(db: Db, comicId: nat, number: int): (r: Option<nat>)
    ensures r.Some? ==> r.value < |db.chapters| && db.chapters[r.value].comicId == comicId && db.chapters[r.value].number == number
    ensures r.None? ==> forall j :: 0 <= j < |db.chapters| ==> !(db.chapters[j].comicId == comicId && db.chapters[j].number == number)
  {
    ChapterIndex(db.chapters, comicId, number)
  }

  /** Page::where('chapter_id', id)->where('page_number', n)->first(), as a position. */
  function PageByKey(db: Db, chapterId: nat, number: int): (r: Option<nat>)
    ensures r.Some? ==> r.value < |db.pages| && db.pages[r.value].chapterId == chapterId && db.pages[r.value].pageNumber == number
    ensures r.None? ==> forall j :: 0 <= j < |db.pages| ==> !(db.pages[j].chapterId == chapterId && db.pages[j].pageNumber == number)
  {
    PageIndex(db.pages, chapterId, number)
  }

  lemma GenreBySlugStable(db: Db, db': Db, slug: string)
    requires GenreBySlug(db, slug).Some? && db.genres <= db'.genres
    ensures GenreBySlug(db', slug) == GenreBySlug(db, slug)
  {
    assert forall j :: 0 <= j < |db.genres| ==> db'.genres[j] == db.genres[j];
  }

  lemma ComicBySlugStable(db: Db, db': Db, slug: string)
    requires ComicBySlug(db, slug).Some? && |db.comics| <= |db'.comics|
    requires forall j :: 0 <= j < |db.comics| ==> db'.comics[j].slug == db.comics[j].slug
    ensures ComicBySlug(db', slug) == ComicBySlug(db, slug)
  {
  }

  lemma ChapterByKeyStable(db: Db, db': Db, comicId: nat, number: int)
    requires ChapterByKey(db, comicId, number).Some? && db.chapters <= db'.chapters
    ensures ChapterByKey(db', comicId, number) == ChapterByKey(db, comicId, number)
  {
    assert forall j :: 0 <= j < |db.chapters| ==> db'.chapters[j] == db.chapters[j];
  }

  lemma PageByKeyStable(db: Db, db': Db, chapterId: nat, number: int)
    requires PageByKey(db, chapterId, number).Some? && |db.pages| <= |db'.pages|
    requires forall j :: 0 <= j < |db.pages| ==>
      db'.pages[j].chapterId == db.pages[j].chapterId && db'.pages[j].pageNumber == db.pages[j].pageNumber
    ensures PageByKey(db', chapterId, number) == PageByKey(db, chapterId, number)
  {
  }

  // ---------------------------------------------------------------- keyed writes

  /** Genre::firstOrCreate(['slug' => slug], ['name' => name]): the id of the
      genre with that slug, inserting it when there is none. */
  function GenreFirstOrCreate(db: Db, slug: string, name: string): (r: (Db, nat))
    ensures 1 <= r.1 <= |r.0.genres| && r.0.genres[r.1 - 1].slug == slug
    ensures GenreBySlug(db, slug).Some? ==> r.0 == db
    ensures GenreBySlug(db, slug).None? ==>
      r.0 == db.(genres := db.genres + [Genre(slug, name)], writes := db.writes + 1)
    ensures GenreBySlug(r.0, slug).Some?
  {
    match GenreBySlug(db, slug)
    case Some(i) => (db, i + 1)
    case None =>
      var db' := db.(genres := db.genres + [Genre(slug, name)], writes := db.writes + 1);
      GenreIndexAppend(db.genres, Genre(slug, name), slug);
      (db', |db'.genres|)
  }

  /** Chapter::firstOrCreate(['comic_id' => id, 'number' => n], ['title' => t]):
      the id of the chapter with that key, inserting it when there is none. */
  function ChapterFirstOrCreate(db: Db, comicId: nat, number: int, title: Option<string>): (r: (Db, nat))
    ensures 1 <= r.1 <= |r.0.chapters|
    ensures r.0.chapters[r.1 - 1].comicId == comicId && r.0.chapters[r.1 - 1].number == number
    ensures ChapterByKey(r.0, comicId, number) == Some(r.1 - 1)
    ensures ChapterByKey(db, comicId, number).Some? ==> r.0 == db
    ensures ChapterByKey(db, comicId, number).None? ==>
      r.0 == db.(chapters := db.chapters + [Chapter(comicId, number, title)], writes := db.writes + 1)
  {
    match ChapterByKey(db, comicId, number)
    case Some(i) => (db, i + 1)
    case None =>
      ChapterIndexAppend(db.chapters, Chapter(comicId, number, title), comicId, number);
      (db.(chapters := db.chapters + [Chapter(comicId, number, title)], writes := db.writes + 1), |db.chapters| + 1)
  }

  /** Eloquent `update(['image_path' => path])` on page i: the statement is only
      issued when the value changes. */
  function SetPageImagePath(db: Db, i: nat, path: string): (r: Db)
    requires i < |db.pages|
    ensures |r.pages| == |db.pages|
    ensures r.pages[i].imagePath == path
    ensures forall j :: 0 <= j < |db.pages| ==> r.pages[j].chapterId == db.pages[j].chapterId && r.pages[j].pageNumber == db.pages[j].pageNumber
    ensures forall j :: 0 <= j < |db.pages| && j != i ==> r.pages[j] == db.pages[j]
    ensures r.writes == db.writes + (if db.pages[i].imagePath == path then 0 else 1)
    ensures db.pages[i].imagePath == path ==> r == db
    ensures r == db.(pages := r.pages, writes := r.writes)
  {
    if db.pages[i].imagePath == path then db
    else db.(pages := db.pages[i := db.pages[i].(imagePath := path)], writes := db.writes + 1)
  }

  /** Page::create: one more row. */
  function InsertPage(db: Db, p: Page): (r: Db)
    ensures r.pages == db.pages + [p] && r.writes == db.writes + 1
    ensures r == db.(pages := r.pages, writes := r.writes)
  {
    db.(pages := db.pages + [p], writes := db.writes + 1)
  }

  /** Eloquent `update(['cover_path' => path])` on comic i (issued only on change). */
  function SetComicCover(db: Db, i: nat, path: string): (r: Db)
    requires i < |db.comics|
    ensures |r.comics| == |db.comics| && r.comics[i].coverPath == Some(path)
    ensures forall j :: 0 <= j < |db.comics| && j != i ==> r.comics[j] == db.comics[j]
    ensures r.comics[i] == db.comics[i].(coverPath := Some(path))
    ensures r.writes == db.writes + (if db.comics[i].coverPath == Some(path) then 0 else 1)
    ensures r == db.(comics := r.comics, writes := r.writes)
  {
    if db.comics[i].coverPath == Some(path) then db
    else db.(comics := db.comics[i := db.comics[i].(coverPath := Some(path))], writes := db.writes + 1)
  }

  // ---------------------------------------------------------------- key uniqueness

  ghost predicate UniqueChapterKeys(db: Db)
  {
    forall i, j :: 0 <= i < j < |db.chapters| ==>
      !(db.chapters[i].comicId == db.chapters[j].comicId && db.chapters[i].number == db.chapters[j].number)
  }

  ghost predicate UniquePageKeys(pages: seq<Page>)
  {
    forall i, j :: 0 <= i < j < |pages| ==>
      !(pages[i].chapterId == pages[j].chapterId && pages[i].pageNumber == pages[j].pageNumber)
  }

  /** A keyed firstOrCreate never makes a second chapter with the same (comic_id, number). */
  lemma ChapterFirstOrCreateKeepsKeysUnique(db: Db, comicId: nat, number: int, title: Option<string>)
    requires UniqueChapterKeys(db)
    ensures UniqueChapterKeys(ChapterFirstOrCreate(db, comicId, number, title).0)
  {
  }

  /** firstOrCreate twice is firstOrCreate once. */
  lemma ChapterFirstOrCreateIdempotent(db: Db, comicId: nat, number: int, title: Option<string>)
    ensures var r := ChapterFirstOrCreate(db, comicId, number, title);
      ChapterFirstOrCreate(r.0, comicId, number, title) == r
  {
  }
}
