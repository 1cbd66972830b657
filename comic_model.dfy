/** The Comic model (app/Models/Comic.php): the `creating` hook that fills in a
    missing slug, the keyed `Comic::firstOrCreate` the commands call through it,
    the `chapters()` relation ordered by number, and the `cover_url` accessor. */
module ComicModel {
  import opened Text
  import opened Seqs
  import opened Catalog

  // ---------------------------------------------------------------- creating hook

  /** The slug a comic is saved with: kept when non-empty, otherwise
      slug(title) + '-' + six random characters. `seed` stands for the
      randomness of Str::random. */
  function CreatingSlug(slug: string, title: string, fns: StrFns, seed: nat): (r: string)
    ensures Truthy(slug) ==> r == slug
    ensures !Truthy(slug) ==> r == fns.slug(title) + "-" + fns.random(seed)
  {
    if !Truthy(slug) then fns.slug(title) + "-" + fns.random(seed) else slug
  }

  /** A generated slug always contains the '-' separator, so it is never one of
      PHP's empty strings again. */
  lemma CreatingSlugIsTruthy(slug: string, title: string, fns: StrFns, seed: nat)
    ensures Truthy(CreatingSlug(slug, title, fns, seed))
  {
    var r := CreatingSlug(slug, title, fns, seed);
    if !Truthy(slug) {
      assert r[|fns.slug(title)|] == '-';
    }
  }

  /** Comic::firstOrCreate(['slug' => slug], ['title' => title, 'genre_id' => g]):
      the id of the first comic with that slug, or of a new row saved through
      the creating hook (its random part seeded by the new row's id). */
  function ComicFirstOrCreate(db: Db, slug: string, title: string, genreId: nat, fns: StrFns): (r: (Db, nat))
    ensures 1 <= r.1 <= |r.0.comics|
    ensures ComicBySlug(db, slug).Some? ==> r == (db, ComicBySlug(db, slug).value + 1)
    ensures ComicBySlug(db, slug).None? ==>
      r.0 == db.(comics := db.comics + [Comic(CreatingSlug(slug, title, fns, |db.comics| + 1), title, None, genreId)],
                 writes := db.writes + 1)
      && r.1 == |r.0.comics|
    ensures Truthy(slug) ==> ComicBySlug(r.0, slug) == Some(r.1 - 1)
  {
    match ComicBySlug(db, slug)
    case Some(i) => (db, i + 1)
    case None =>
      var c := Comic(CreatingSlug(slug, title, fns, |db.comics| + 1), title, None, genreId);
      ComicIndexAppend(db.comics, c, slug);
      (db.(comics := db.comics + [c], writes := db.writes + 1), |db.comics| + 1)
  }

  /** With a non-empty slug, a second firstOrCreate finds the row the first one made. */
  lemma ComicFirstOrCreateIdempotent(db: Db, slug: string, title: string, genreId: nat, fns: StrFns)
    requires Truthy(slug)
    ensures var r := ComicFirstOrCreate(db, slug, title, genreId, fns);
      ComicFirstOrCreate(r.0, slug, title, genreId, fns) == r
  {
  }

  /** With an empty or "0" slug the hook renames the new row, so the slug that
      was asked for is still absent and every call inserts another comic. */
  lemma {:induction false} ComicFirstOrCreateFalsySlugAlwaysInserts(db: Db, slug: string, title: string, genreId: nat, fns: StrFns)
    requires !Truthy(slug)
    requires ComicBySlug(db, slug).None?
    ensures var r := ComicFirstOrCreate(db, slug, title, genreId, fns);
      |r.0.comics| == |db.comics| + 1 && r.0.writes == db.writes + 1 && ComicBySlug(r.0, slug).None?
  {
    var c := Comic(CreatingSlug(slug, title, fns, |db.comics| + 1), title, None, genreId);
    CreatingSlugIsTruthy(slug, title, fns, |db.comics| + 1);
    assert c.slug != slug;
    ComicIndexAppend(db.comics, c, slug);
  }

  // ---------------------------------------------------------------- chapters()

  function ChapterSortKey(c: Chapter): int { c.number }

  function ChapterOfComic(comicId: nat): Chapter -> bool { (c: Chapter) => c.comicId == comicId }

  /** $comic->chapters: the comic's chapters ordered by number. */
  function ChaptersOf(db: Db, comicId: nat): (r: seq<Chapter>)
    ensures forall c :: c in r <==> c in db.chapters && c.comicId == comicId
    ensures multiset(r) == multiset(Filter(db.chapters, ChapterOfComic(comicId)))
  {
    var own := Filter(db.chapters, ChapterOfComic(comicId));
    assert forall c :: ChapterOfComic(comicId)(c) == (c.comicId == comicId);
    var r := SortBy(own, ByKey(ChapterSortKey));
    assert forall c :: c in r <==> c in multiset(own);
    r
  }

  /** The relation lists the comic's chapters, each as often as the table
      holds it, in ascending number order. */
  lemma ChaptersOfAscending(db: Db, comicId: nat)
    ensures var r := ChaptersOf(db, comicId);
      multiset(r) == multiset(Filter(db.chapters, ChapterOfComic(comicId))) &&
      forall i, j :: 0 <= i < j < |r| ==> r[i].number <= r[j].number
  {
    var own := Filter(db.chapters, ChapterOfComic(comicId));
    SortByKeyAscending(own, ChapterSortKey);
  }

  // ---------------------------------------------------------------- cover_url

  /** What the accessor reads from its environment.
      diskUrl: the default disk's `url` method, None when the disk has none or
      cannot be constructed; blobEndpoint: AZURE_STORAGE_BLOB_ENDPOINT;
      diskConfigUrl: the disk's configured `url`; asset: the asset() helper. */
  datatype UrlEnv = UrlEnv(diskUrl: Option<string -> string>, blobEndpoint: Option<string>,
                           diskConfigUrl: Option<string>, asset: string -> string)

  /** explode('?', endpoint, 2): the part before the first '?' and, when there
      is a '?', the part after it. */
  function SplitQuery(endpoint: string): (r: (string, Option<string>))
    ensures '?' !in r.0
    ensures r.1.None? ==> r.0 == endpoint
    ensures r.1.Some? ==> endpoint == r.0 + "?" + r.1.value
  {
    match IndexOf(endpoint, "?")
    case None =>
      assert forall j :: 0 <= j < |endpoint| ==> endpoint[j] != '?' by {
        forall j | 0 <= j < |endpoint| ensures endpoint[j] != '?' { assert !OccursAt(endpoint, "?", j); }
      }
      (endpoint, None)
    case Some(i) =>
      assert forall j :: 0 <= j < i ==> endpoint[j] != '?' by {
        forall j | 0 <= j < i ensures endpoint[j] != '?' { assert !OccursAt(endpoint, "?", j); }
      }
      assert endpoint == endpoint[..i] + "?" + endpoint[i + 1..];
      (endpoint[..i], Some(endpoint[i + 1..]))
  }

  /** The URL built from a blob endpoint: the path joined under the endpoint's
      base, with the endpoint's query (the SAS token) appended when non-empty. */
  function BlobUrl(endpoint: string, path: string): string
  {
    var (base, query) := SplitQuery(endpoint);
    var url := JoinUrl(base, path);
    if query.Some? && Truthy(query.value) then url + "?" + query.value else url
  }

  /** $comic->cover_url: null exactly when cover_path is empty; otherwise the first
      of the disk's own url, the blob endpoint, the disk's configured url and
      asset('storage/' . path) that is available. */
  function CoverUrl(coverPath: Option<string>, env: UrlEnv): (r: Option<string>)
    ensures r.None? <==> !Present(coverPath)
  {
    if !Present(coverPath) then None
    else
      var path := coverPath.value;
      if env.diskUrl.Some? then Some(env.diskUrl.value(path))
      else if Present(env.blobEndpoint) then Some(BlobUrl(env.blobEndpoint.value, path))
      else if Present(env.diskConfigUrl) then Some(JoinUrl(env.diskConfigUrl.value, path))
      else Some(env.asset("storage/" + path))
  }

  /** Branch priority: a disk with a url method wins over everything else. */
  lemma CoverUrlPrefersDiskUrl(coverPath: Option<string>, env: UrlEnv)
    requires Present(coverPath) && env.diskUrl.Some?
    ensures CoverUrl(coverPath, env) == Some(env.diskUrl.value(coverPath.value))
  {
  }

  /** With a blob endpoint the URL is the endpoint's base (no '?' in it), one '/',
      the path without its leading slashes, then the endpoint's query if any. */
  lemma {:induction false} CoverUrlFromBlobEndpoint(coverPath: Option<string>, env: UrlEnv)
    requires Present(coverPath) && env.diskUrl.None? && Present(env.blobEndpoint)
    ensures var e := env.blobEndpoint.value;
      var (base, query) := SplitQuery(e);
      CoverUrl(coverPath, env).Some? &&
      CoverUrl(coverPath, env).value ==
        RTrim(base, '/') + "/" + LTrim(coverPath.value, '/') +
        (if query.Some? && Truthy(query.value) then "?" + query.value else "")
  {
  }

  /** An endpoint without a query is used as a plain base. */
  lemma BlobUrlWithoutQuery(endpoint: string, path: string)
    requires '?' !in endpoint
    ensures BlobUrl(endpoint, path) == JoinUrl(endpoint, path)
  {
    forall j | 0 <= j <= |endpoint| ensures !OccursAt(endpoint, "?", j) {
      if j < |endpoint| {
        assert endpoint[j..j + 1][0] == endpoint[j];
      }
    }
  }

  /** The endpoint's query is carried over whole, after a single '?'. */
  lemma BlobUrlKeepsQuery(base: string, query: string, path: string)
    requires '?' !in base && Truthy(query)
    ensures BlobUrl(base + "?" + query, path) == JoinUrl(base, path) + "?" + query
  {
    var e := base + "?" + query;
    assert OccursAt(e, "?", |base|);
    forall j | 0 <= j < |base| ensures !OccursAt(e, "?", j) {
      assert e[j] == base[j];
    }
    assert IndexOf(e, "?") == Some(|base|);
    assert e[..|base|] == base && e[|base| + 1..] == query;
  }

  /** Without a disk url method or a blob endpoint, the disk's configured url
      loses its trailing slashes and the path its leading ones, joined by one '/'. */
  lemma CoverUrlDiskConfig(coverPath: Option<string>, env: UrlEnv)
    requires Present(coverPath) && env.diskUrl.None? && !Present(env.blobEndpoint)
    requires Present(env.diskConfigUrl)
    ensures CoverUrl(coverPath, env) ==
      Some(RTrim(env.diskConfigUrl.value, '/') + "/" + LTrim(coverPath.value, '/'))
  {
  }

  /** The last fallback does not strip a leading slash: "/a.jpg" is served from
      "storage//a.jpg". */
  lemma CoverUrlAssetKeepsLeadingSlash(env: UrlEnv)
    requires env.diskUrl.None? && !Present(env.blobEndpoint) && !Present(env.diskConfigUrl)
    ensures CoverUrl(Some("/a.jpg"), env) == Some(env.asset("storage//a.jpg"))
  {
    assert "storage/" + "/a.jpg" == "storage//a.jpg";
  }
}
