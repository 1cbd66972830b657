/** ChapterController::store (app/Http/Controllers/ChapterController.php):
    create a chapter of a comic, then store each uploaded page on the Azure
    disk and create a Page row numbered by its upload position. */
module ChapterController {
  import opened Text
  import opened Catalog

  /** An uploaded file: its client-side name and the extension guessed from its contents. */
  datatype Upload = Upload(originalName: string, extension: string)

  /** `getClientOriginalName() ?: ($i + 1) . '.' . extension()`. */
  function UploadFilename(f: Upload, i: nat): string
  {
    if Truthy(f.originalName) then f.originalName else NatToString(i + 1) + "." + f.extension
  }

  /** The folder the pages go to. `$chapter->number` is the attribute as it
      was passed to create(), so the folder names the request's value as it
      was sent (`numberText`), not the integer the column stores. */
  function UploadFolder(slug: string, numberText: string): string
  {
    "comics/" + slug + "/chapter-" + numberText
  }

  /** The Page row for the i-th upload (putFileAs returns folder/filename). */
  function UploadedPage(chapterId: nat, folder: string, f: Upload, i: nat): Page
  {
    Page(chapterId, i + 1, folder + "/" + UploadFilename(f, i), None, None)
  }

  function UploadedPages(chapterId: nat, folder: string, files: seq<Upload>): seq<Page>
  {
    seq(|files|, k requires 0 <= k < |files| => UploadedPage(chapterId, folder, files[k], k))
  }

  /** The catalogue after store(): one new chapter row, then one page row per
      upload. `number` is the value the number column stores and `numberText`
      the validated request value it came from. */
  function Store(db: Db, comic: nat, number: int, numberText: string, title: Option<string>, files: seq<Upload>): Db
    requires comic < |db.comics|
  {
    var chapters := db.chapters + [Chapter(comic + 1, number, title)];
    var folder := UploadFolder(db.comics[comic].slug, numberText);
    db.(chapters := chapters, pages := db.pages + UploadedPages(|chapters|, folder, files),
        writes := db.writes + 1 + |files|)
  }

  // ---------------------------------------------------------------- properties

  /** The chapter is created for the comic with the validated number and the
      given title, absent (null) when none was sent; nothing else but pages changes. */
  lemma StoreCreatesChapter(db: Db, comic: nat, number: int, numberText: string, title: Option<string>, files: seq<Upload>)
    requires comic < |db.comics|
    ensures var r := Store(db, comic, number, numberText, title, files);
      |r.chapters| == |db.chapters| + 1 && r.chapters[..|db.chapters|] == db.chapters &&
      r.chapters[|db.chapters|] == Chapter(comic + 1, number, title) &&
      r.comics == db.comics && r.genres == db.genres && r.covers == db.covers &&
      r.pages[..|db.pages|] == db.pages && r.writes == db.writes + 1 + |files|
  {
    var r := Store(db, comic, number, numberText, title, files);
    assert r.chapters[..|db.chapters|] == db.chapters;
    assert r.pages[..|db.pages|] == db.pages;
  }

  /** The uploads become pages 1..k of the new chapter, in upload order, each
      stored as `comics/{slug}/chapter-{number as sent}/{filename}`. */
  lemma StoreNumbersPages(db: Db, comic: nat, number: int, numberText: string, title: Option<string>, files: seq<Upload>)
    requires comic < |db.comics|
    ensures var r := Store(db, comic, number, numberText, title, files);
      |r.pages| == |db.pages| + |files| &&
      forall k :: 0 <= k < |files| ==>
        r.pages[|db.pages| + k].chapterId == |db.chapters| + 1 &&
        r.pages[|db.pages| + k].pageNumber == k + 1 &&
        r.pages[|db.pages| + k].imagePath ==
          "comics/" + db.comics[comic].slug + "/chapter-" + numberText + "/" + UploadFilename(files[k], k)
  {
    var r := Store(db, comic, number, numberText, title, files);
    var folder := UploadFolder(db.comics[comic].slug, numberText);
    assert r.pages == db.pages + UploadedPages(|db.chapters| + 1, folder, files);
    forall k | 0 <= k < |files| ensures r.pages[|db.pages| + k] == UploadedPage(|db.chapters| + 1, folder, files[k], k) {
    }
  }

  /** Without uploads no Page row is created. */
  lemma NoFilesNoPages(db: Db, comic: nat, number: int, numberText: string, title: Option<string>)
    requires comic < |db.comics|
    ensures Store(db, comic, number, numberText, title, []).pages == db.pages
  {
    assert UploadedPages(|db.chapters| + 1, UploadFolder(db.comics[comic].slug, numberText), []) == [];
  }

  /** The folder's last segment is `chapter-` and the value as sent, so reading
      its number back the way the import commands do (`(int)` of what follows
      `chapter-`) gives the cast of the request value; for a value sent in its
      plain decimal form that is the stored number itself. */
  lemma FolderReadsBack(slug: string, number: int, numberText: string)
    requires '/' !in numberText
    ensures Basename(UploadFolder(slug, numberText)) == "chapter-" + numberText
    ensures IntCast(After(Basename(UploadFolder(slug, numberText)), "chapter-")) == IntCast(numberText)
    ensures numberText == IntToString(number) ==>
      IntCast(After(Basename(UploadFolder(slug, numberText)), "chapter-")) == number
  {
    var name := "chapter-" + numberText;
    assert '/' !in name by {
      forall k | 0 <= k < |name| ensures name[k] != '/' {
        if k >= 8 { assert name[k] == numberText[k - 8]; }
      }
    }
    assert UploadFolder(slug, numberText) == ("comics/" + slug) + "/" + name;
    BasenameOfJoin("comics/" + slug, name);
    AfterPrefix("chapter-", numberText);
    IntCastOfIntToString(number);
  }

  /** A named upload keeps its client name; an unnamed one is called
      `{position}.{extension}`, and the part before the dot casts back to
      the page number it is stored under. */
  lemma FilenameFallback(f: Upload, i: nat)
    ensures Truthy(f.originalName) ==> UploadFilename(f, i) == f.originalName
    ensures !Truthy(f.originalName) ==>
      UploadFilename(f, i) == NatToString(i + 1) + "." + f.extension &&
      IntCast(Before(UploadFilename(f, i), ".")) == i + 1
  {
    if !Truthy(f.originalName) {
      var digits := NatToString(i + 1);
      NatToStringDigits(i + 1);
      var name := digits + "." + f.extension;
      assert name[|digits|] == '.';
      forall k | 0 <= k < |digits| ensures name[k] != '.' {
        assert name[k] == digits[k];
      }
      IndexOfChar(name, '.', |digits|);
      assert Before(name, ".") == digits;
      IntCastOfDigits(digits);
    }
  }

  // ---------------------------------------------------------------- the controller

  /** store(): the chapter, then one putFileAs and one Page::create per upload. */
  method StoreChapter(db0: Db, comic: nat, number: int, numberText: string, title: Option<string>, files: seq<Upload>)
    returns (db: Db)
    requires comic < |db0.comics|
    ensures db == Store(db0, comic, number, numberText, title, files)
  {
    db := db0.(chapters := db0.chapters + [Chapter(comic + 1, number, title)], writes := db0.writes + 1);
    var chapterId := |db.chapters|;
    var db1 := db;
    // `$comic->slug ?? Str::slug($comic->title)`: the slug column is NOT NULL
    var comicSlug := db0.comics[comic].slug;
    var folder := UploadFolder(comicSlug, numberText);
    var i := 0;
    while i < |files|
      invariant 0 <= i <= |files|
      invariant db == db1.(pages := db1.pages + UploadedPages(chapterId, folder, files[..i]), writes := db1.writes + i)
    {
      var filename := UploadFilename(files[i], i);
      var path := folder + "/" + filename;
      assert UploadedPages(chapterId, folder, files[..i + 1]) ==
        UploadedPages(chapterId, folder, files[..i]) + [Page(chapterId, i + 1, path, None, None)];
      db := InsertPage(db, Page(chapterId, i + 1, path, None, None));
      i := i + 1;
    }
    assert files[..i] == files;
  }
}
