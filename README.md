# ctoon core, modelled in Dafny

ctoon is a comic-reading site. This project models its core and proves properties of the model:

- **Storage-to-catalogue commands.** These are Laravel Artisan commands that walk a blob or disk tree. They read comic, chapter and page identities out of folder and file names. They find or create `Comic`, `Chapter`, `Page` and `Cover` rows, and rewrite or migrate storage paths.
- **URL builders and controllers.** The `Comic` cover-URL and `Profile` avatar-URL accessors, chapter upload, bookmarks, ratings, and the Java `AuthService`.
- **Client-side state.** The page reader, star and theme helpers of `app.js`, the `ComicRating` widget of `rating.js`, and the inline reader of the chapter page.

The catalogue is the value `Catalog.Db`:

- Each table is a sequence of rows in insertion order.
- A row's id is its position plus one.
- `where(...)->first()` is the matching row of least id.
- `writes` counts INSERT and UPDATE statements. An Eloquent `update`/`save` counts only when a value changes.

Each command is specified by a left fold of one pure step per directory, file or row. Its `Handle` method runs the command's nested loops and is proved to compute that fold. Properties are lemmas about the folds:

- extraction rules and their priority;
- skip-on-malformed behaviour;
- ascending processing order;
- which writes dry-run suppresses and which it keeps;
- counter sums;
- idempotence of a second run, on a well-formed tree, and the reruns that are not idempotent otherwise.

Controllers and widgets whose methods update fields in place are classes. Their methods are proved against pure functions, and the lemmas are about those functions.

For `az:sync-from-storage`, a blob tree is well-formed when:

- every comic directory name is non-empty and not "0";
- no two comic directories share a name;
- no two chapter directories of a comic give the same chapter number;
- no two page files of a chapter directory give the same page number.

The second run is idempotent only on such trees.

These facts hold for the source as it stands:

- In `app.js` nothing ever assigns `ComicReader.totalPages`, so it stays 0. The reader therefore starts on page 1 of 0 and can never move forward (`AppScript.InitialReaderCannotAdvance`).
- In `az:sync-from-storage`, two page files whose names give the same number, such as `page1.jpg` and `page01.jpg`, share one Page row. Each run points the row at the first file and then back at the second, so every rerun issues two UPDATEs (`SyncFromAzureRerun.CollidingPageNumbersRewriteEachRun`, `SyncFromAzureRerun.PaddedPageNamesCollide`).
- In `MigrateToAzure` every page's source path is the fixed `comics/kimetsunoyaiba/chapter1/{page_number}.jpg`, so its empty-path branch is dead (`MigrateToAzure.PageSourceShape`).

PHP and JavaScript semantics are modelled explicitly in `Text`:

- truthiness, where `""` and `"0"` are falsy;
- `(int)` casts and `parseInt`;
- `Str::after`, `Str::before` and `Str::between`;
- `basename`, `dirname` and `pathinfo`;
- `ltrim` and `rtrim`;
- `strcmp` ordering, and `Collection::sortBy` as a stable sort.

`Str::slug`, `Str::title` and `Str::random` are function parameters (`Text.StrFns`).

## Model

| member | source | states |
|---|---|---|
| Catalog.FirstWhere | app/Console/Commands/SyncAzureStorage.php:53-55 | `where(...)->first()` is the least position whose row matches, None when no row does |
| Catalog.GenreFirstOrCreate | app/Console/Commands/SyncFromAzureStorage.php:35-38 | an existing genre with the slug is returned unchanged; otherwise exactly one row is appended with one write |
| Catalog.ChapterFirstOrCreate | app/Console/Commands/SyncFromAzureStorage.php:101-110 | the returned chapter has the key (comic_id, number); the catalogue is unchanged when the key existed, else one row is appended |
| Catalog.SetPageImagePath | app/Console/Commands/SyncFromAzureStorage.php:148-149 | only that page's image_path changes; a write is counted exactly when the value differs |
| Catalog.SetComicCover | app/Console/Commands/SyncFromAzureStorage.php:70-71 | only that comic's cover_path changes; a write is counted exactly when the value differs |
| Catalog.ChapterFirstOrCreateKeepsKeysUnique | app/Console/Commands/ImportLocalComics.php:61-67 | a keyed firstOrCreate never makes a second chapter with the same (comic_id, number) |
| Catalog.ChapterFirstOrCreateIdempotent | app/Console/Commands/ImportLocalComics.php:61-67 | firstOrCreate twice is firstOrCreate once |
| Seqs.SortByKeyAscending | app/Console/Commands/SyncFromAzureStorage.php:84-89 | `sortBy` on an integer key yields a permutation of its input, ascending by key |
| Seqs.SortStringsAscending | app/Console/Commands/ImportLocalComics.php:70-72 | `sort()` on strings yields a permutation of its input, ascending in strcmp order |
| Text.CaptureAfter | app/Console/Commands/SyncFromAzureStorage.php:92-93 | `lit(\d+)` has no capture exactly when no occurrence of `lit` is followed by a digit; a capture is a non-empty digit string |
| Text.IntCastOfIntToString | app/Console/Commands/SyncAzureStorage.php:134 | PHP's (int) cast of a rendered integer gives the integer back |
| Text.IntCastOfUnsigned | app/Console/Commands/SyncAzureStorage.php:134 | a string opening with a digit is cast by its numeric prefix, and a leading '-' negates that value |
| Text.UnsignedCastOfWhole | app/Console/Commands/ImportLocalComics.php:58 | digits followed by neither a digit nor a '.' are read as their decimal value scaled by any exponent that follows |
| Text.UnsignedCastOfFraction | app/Console/Commands/SyncAzureStorage.php:134 | digits, '.', digits are read as one number shifted by the fraction length and any exponent, truncated toward zero |
| Text.ExponentOfDigits | app/Console/Commands/SyncAzureStorage.php:134 | `e`/`E`, an optional sign and digits form the exponent, negative after '-' |
| Text.IntCastExponent | app/Console/Commands/SyncAzureStorage.php:134 | a one-digit mantissa with `e2` is cast to a hundred times that digit ("1e2" is 100) |
| Text.IntCastFractionExponent | app/Console/Commands/SyncAzureStorage.php:134 | `d.de1` is cast to the two-digit number ("1.5e1" is 15) |
| Text.IntCastTruncates | app/Console/Commands/ImportLocalComics.php:58 | a fraction is truncated toward zero on both signs ("2.9" is 2, "-2.9" is -2) |
| Text.IntCastBareExponent | app/Console/Commands/SyncAzureStorage.php:134 | an `e` without digits after it is not part of the number ("1e" is the digit) |
| Text.BasenameOfJoin | app/Console/Commands/ImportCovers.php:52-57 | basename and dirname of dir + "/" + name give name and dir back when name has no '/' |
| ComicModel.CreatingSlug | app/Models/Comic.php:15-19 | a non-empty slug is kept; an empty or "0" slug becomes slug(title) + '-' + six random characters |
| ComicModel.CreatingSlugIsTruthy | app/Models/Comic.php:15-19 | a slug set by the creating hook is never falsy |
| ComicModel.ComicFirstOrCreate | app/Console/Commands/SyncFromAzureStorage.php:48-54 | returns the first comic with the slug unchanged, or appends one saved through the creating hook |
| ComicModel.ComicFirstOrCreateIdempotent | app/Console/Commands/ImportLocalComics.php:45-51 | with a truthy slug, a second firstOrCreate finds the row the first one made |
| ComicModel.ComicFirstOrCreateFalsySlugAlwaysInserts | app/Models/Comic.php:15-19 | with an empty or "0" slug the hook renames the row, so every call inserts another comic |
| ComicModel.ChaptersOf | app/Models/Comic.php:26-29 | the relation holds exactly the chapters whose comic_id is the comic's, as many times as the table holds each |
| ComicModel.ChaptersOfAscending | app/Models/Comic.php:26-29 | `chapters()` is a permutation of the comic's rows in the chapters table (same multiset), in ascending number order |
| ComicModel.SplitQuery | app/Models/Comic.php:72 | explode('?', endpoint, 2): base has no '?', and base + '?' + query is the endpoint when there is a query |
| ComicModel.CoverUrl | app/Models/Comic.php:53-87 | cover_url is null exactly when cover_path is empty |
| ComicModel.CoverUrlPrefersDiskUrl | app/Models/Comic.php:57-66 | a disk with a url method wins over every other branch |
| ComicModel.CoverUrlFromBlobEndpoint | app/Models/Comic.php:69-78 | base without trailing '/', one '/', path without leading '/', then '?query' only when there was one |
| ComicModel.BlobUrlWithoutQuery | app/Models/Comic.php:72-77 | an endpoint without a query is used as a plain base |
| ComicModel.BlobUrlKeepsQuery | app/Models/Comic.php:73-76 | the endpoint's query is carried over whole, after a single '?' |
| ComicModel.CoverUrlDiskConfig | app/Models/Comic.php:81-84 | without a disk url method or a blob endpoint, the configured url without trailing '/', one '/', then the path without leading '/' |
| ComicModel.CoverUrlAssetKeepsLeadingSlash | app/Models/Comic.php:87 | the asset fallback does not strip a leading slash: "/a.jpg" gives "storage//a.jpg" |
| ProfileModel.Elvis | app/Models/Profile.php:29-30 | `$a ?: $b` takes the first value exactly when it is truthy |
| ProfileModel.AvatarUrl | app/Models/Profile.php:15-41 | avatar_url is null exactly when avatar_path is empty |
| ProfileModel.AzureBlobUrlEndsWithPath | app/Models/Profile.php:31-34 | the Azure URL is the account and container prefix followed by the path without its leading slashes |
| ProfileModel.AvatarUrlAzureBranch | app/Models/Profile.php:29-34 | when the disk has no url method, the Azure branch is taken ahead of the disk's configured url, once account and container are both set under either name |
| ProfileModel.AvatarUrlPrefersStorageName | app/Models/Profile.php:29 | AZURE_STORAGE_NAME wins over AZURE_STORAGE_ACCOUNT |
| ProfileModel.AvatarUrlDiskConfig | app/Models/Profile.php:36-39 | without account or container, the disk's configured url is joined with a single '/' |
| ProfileModel.AvatarUrlAssetStripsLeadingSlash | app/Models/Profile.php:40 | the asset fallback strips leading slashes: "/a.jpg" gives "storage/a.jpg" |
| SyncFromAzure.UsableNumber | app/Console/Commands/SyncFromAzureStorage.php:92-98 | an entry is skipped exactly when there is no match or the capture is "0"; otherwise its number is the capture's value |
| SyncFromAzure.ChapterOrderAscending | app/Console/Commands/SyncFromAzureStorage.php:84-89 | exactly the directories whose basename contains "chapter" are visited, each once, in ascending capture order |
| SyncFromAzure.PageOrderAscending | app/Console/Commands/SyncFromAzureStorage.php:119-124 | exactly the files whose basename contains "page" are visited, each once, in ascending capture order |
| SyncFromAzure.CoverIndex | app/Console/Commands/SyncFromAzureStorage.php:63-69 | the first of jpg, jpeg, png, gif, webp whose `images/covers/{slug}/cover.{ext}` exists; none when none exists |
| SyncFromAzure.ChapterSkippedWithoutNumber | app/Console/Commands/SyncFromAzureStorage.php:92-98 | a chapter directory with no match or capture "0" creates no chapter and writes nothing |
| SyncFromAzure.PageStepUpserts | app/Console/Commands/SyncFromAzureStorage.php:135-154 | dry-run writes nothing; otherwise a missing (chapter_id, page_number) row is created, and an existing one is updated only when its path differs |
| SyncFromAzure.CoverStepWritesOnChange | app/Console/Commands/SyncFromAzureStorage.php:67-75 | the cover is written only outside dry-run and only when it differs from the first candidate |
| SyncFromAzure.ComicStepTitle | app/Console/Commands/SyncFromAzureStorage.php:45-54 | a new comic is titled from its slug; an existing comic keeps its title |
| SyncFromAzure.Run | app/Console/Commands/SyncFromAzureStorage.php:25-28 | exit code 1, with the catalogue unchanged, exactly when there is no `comics` directory |
| SyncFromAzure.SyncPages | app/Console/Commands/SyncFromAzureStorage.php:119-155 | the page loop computes the page fold |
| SyncFromAzure.SyncChapters | app/Console/Commands/SyncFromAzureStorage.php:84-157 | the chapter loop computes the chapter fold |
| SyncFromAzure.SyncCover | app/Console/Commands/SyncFromAzureStorage.php:63-77 | the candidate loop stops at the first existing cover |
| SyncFromAzure.Handle | app/Console/Commands/SyncFromAzureStorage.php:18-165 | handle() computes `Run` |
| SyncFromAzureRerun.RunOnSynced | app/Console/Commands/SyncFromAzureStorage.php:48-151 | on a catalogue already in sync with the tree, a run (live or dry) changes nothing and issues no write |
| SyncFromAzureRerun.RunEstablishes | app/Console/Commands/SyncFromAzureStorage.php:48-151 | after a live run over a well-formed tree, the catalogue is in sync with it |
| SyncFromAzureRerun.RerunWritesNothing | app/Console/Commands/SyncFromAzureStorage.php:101-151 | on a well-formed tree (distinct truthy comic names, distinct chapter numbers per comic, distinct page numbers per chapter), a second run changes nothing and issues no INSERT or UPDATE |
| SyncFromAzureRerun.CollidingPageNumbersRewriteEachRun | app/Console/Commands/SyncFromAzureStorage.php:119-151 | two files of a chapter with the same page number leave the row holding the second path, and every further live pass issues two UPDATEs and ends in the same rows |
| SyncFromAzureRerun.PaddedPageNamesCollide | app/Console/Commands/SyncFromAzureStorage.php:119-133 | `page1.jpg` and `page01.jpg` both give page 1 |
| SyncFromAzureDryRun.DryRunSameSkeleton | app/Console/Commands/SyncFromAzureStorage.php:35-38 | dry-run still creates the same genre, comic and chapter rows as a live run; the two differ only in covers, pages and the write count |
| SyncFromAzureDryRun.DryRunKeepsPagesAndCovers | app/Console/Commands/SyncFromAzureStorage.php:70-74 | dry-run writes no Page and no cover: existing rows are kept and comics it creates have no cover |
| SyncAzureStorage.ChapterNumberOf | app/Console/Commands/SyncAzureStorage.php:84-91 | the number is missing exactly when the name has no digit |
| SyncAzureStorage.WholeNameRuleIsRedundant | app/Console/Commands/SyncAzureStorage.php:85-90 | the number is the `chapter` capture if there is one, else the first digit run |
| SyncAzureStorage.PlainDigitsName | app/Console/Commands/SyncAzureStorage.php:87-88 | an all-digit name is its own number |
| SyncAzureStorage.ChapterWordWins | app/Console/Commands/SyncAzureStorage.php:85-86 | the case-insensitive `chapter[-_ ]?(\d+)` rule wins wherever it matches |
| SyncAzureStorage.FindComic | app/Console/Commands/SyncAzureStorage.php:52-55 | the first comic whose slug is slug(folder) or whose title is the folder name |
| SyncAzureStorage.ResolveComic | app/Console/Commands/SyncAzureStorage.php:52-72 | the first comic whose slug is slug(folder) or whose title is the folder name; otherwise, outside dry-run only, one appended comic titled with the folder name, with slug(folder) through the creating hook, no cover and the `uncategorized` genre (found or created), earlier rows kept, one INSERT plus one for a new genre |
| SyncAzureStorage.ResolveComicIdempotent | app/Console/Commands/SyncAzureStorage.php:52-72 | a comic the command created is found again on the next run |
| SyncAzureStorage.NextChapterNumber | app/Console/Commands/SyncAzureStorage.php:102-104 | max(existing numbers) + 1: above every number of the comic and one more than one of them, and 1 when it has none |
| SyncAzureStorage.ResolveChapter | app/Console/Commands/SyncAzureStorage.php:93-108 | a chapter is looked up by (comic_id, number), else created outside dry-run with the parsed or the next number |
| SyncAzureStorage.ResolveChapterIdempotent | app/Console/Commands/SyncAzureStorage.php:93-108 | a numbered folder's chapter is found again on the next run |
| SyncAzureStorage.DigitlessFolderAddsChapterEachRun | app/Console/Commands/SyncAzureStorage.php:98-105 | a folder name with no digit gets a new chapter on every live run |
| SyncAzureStorage.ChapterSegment | app/Console/Commands/SyncAzureStorage.php:122 | "unknown" exactly when there is neither a chapter nor a parsed number |
| SyncAzureStorage.TargetPathKeepsFileName | app/Console/Commands/SyncAzureStorage.php:121-123 | the target is `comics/{slug}/chapter-{n}/{file}`, and its last segment is the file's own name |
| SyncAzureStorage.UpsertPage | app/Console/Commands/SyncAzureStorage.php:133-139 | an existing (chapter_id, page_number) row gets the path, else one row is created |
| SyncAzureStorage.UpsertPageIdempotent | app/Console/Commands/SyncAzureStorage.php:133-139 | upserting the same path again issues no statement |
| SyncAzureStorage.Selected | app/Console/Commands/SyncAzureStorage.php:36-40 | with a truthy --comic, exactly the folders equal to it up to ASCII case; otherwise all of them |
| SyncAzureStorage.Run | app/Console/Commands/SyncAzureStorage.php:23-45 | exit code 1, with nothing uploaded or written, when the path is not a directory or --comic names no folder |
| SyncAzureStorage.DryRunChangesNothing | app/Console/Commands/SyncAzureStorage.php:58 | dry-run uploads nothing and issues no statement |
| SyncAzureStorage.LiveRunUploadsEveryFile | app/Console/Commands/SyncAzureStorage.php:127-130 | a live run puts exactly one object per file of the selected folders |
| SyncAzureStorage.ResolveChapterKeepsKeysUnique | app/Console/Commands/SyncAzureStorage.php:98-105 | a created chapter never repeats a (comic_id, number) key |
| SyncAzureStorage.RunKeepsKeysUnique | app/Console/Commands/SyncAzureStorage.php:93-139 | no second chapter per (comic_id, number) and no second page per (chapter_id, page_number) |
| SyncAzureStorage.SyncFile | app/Console/Commands/SyncAzureStorage.php:115-142 | the file-loop body computes the file step |
| SyncAzureStorage.SyncFiles | app/Console/Commands/SyncAzureStorage.php:115-142 | the file loop computes the file fold |
| SyncAzureStorage.SyncComicDir | app/Console/Commands/SyncAzureStorage.php:47-143 | one comic folder (comic row, then its chapter folders) computes one step of the comic-folder fold |
| SyncAzureStorage.SyncChapterDirs | app/Console/Commands/SyncAzureStorage.php:80-143 | the chapter-folder loop computes the chapter fold |
| SyncAzureStorage.SyncFileAt | app/Console/Commands/SyncAzureStorage.php:113-142 | one file (its Azure path, the upload, the page row) computes one step of the file fold |
| SyncAzureStorage.SyncChapterDir | app/Console/Commands/SyncAzureStorage.php:81-142 | one chapter folder (number, chapter row, files) computes one step of that fold |
| SyncAzureStorage.Handle | app/Console/Commands/SyncAzureStorage.php:18-148 | handle() computes `Run` |
| ImportLocalComics.ChapterFoldersSelected | app/Console/Commands/ImportLocalComics.php:54-55 | exactly the sub-folders whose basename starts with `chapter-` |
| ImportLocalComics.PageFilesSelected | app/Console/Commands/ImportLocalComics.php:70-71 | exactly the files whose basename starts with `page-` |
| ImportLocalComics.PageFilesAscending | app/Console/Commands/ImportLocalComics.php:70-72 | each page file is processed once, in ascending string order |
| ImportLocalComics.PageTenBeforePageTwo | app/Console/Commands/ImportLocalComics.php:72 | string order is not numeric order: page-10 comes before page-2 |
| ImportLocalComics.ChapterFolderNumber | app/Console/Commands/ImportLocalComics.php:58 | `chapter-<digits>` has the number those digits spell |
| ImportLocalComics.PageFileNumber | app/Console/Commands/ImportLocalComics.php:75-76 | `page-<digits>.<ext>` has the number those digits spell and extension ext |
| ImportLocalComics.PageFirstOrCreate | app/Console/Commands/ImportLocalComics.php:78-87 | nothing when the (chapter, number) page exists, else a new row with the file's path and extension |
| ImportLocalComics.Run | app/Console/Commands/ImportLocalComics.php:18-95 | the `manga` genre first, then exit code 1 without `comics`, else every folder processed and exit code 0 |
| ImportLocalComics.RunOnlyAppends | app/Console/Commands/ImportLocalComics.php:45-87 | the import never updates or deletes a row, and covers are untouched |
| ImportLocalComics.MissingComicsFolder | app/Console/Commands/ImportLocalComics.php:23-34 | without `comics` only the `manga` genre can be created |
| ImportLocalComics.ComicStepCreatesComic | app/Console/Commands/ImportLocalComics.php:45-51 | a new slug creates a comic titled from the folder name, in the given genre |
| ImportLocalComics.ChapterStepCreatesChapter | app/Console/Commands/ImportLocalComics.php:61-67 | a new (comic, number) creates the chapter titled "Chapter {n}" |
| ImportLocalComics.RunOnSynced | app/Console/Commands/ImportLocalComics.php:45-87 | a catalogue that already holds every row the tree asks for is left as it is |
| ImportLocalComics.RunEstablishes | app/Console/Commands/ImportLocalComics.php:45-87 | after one run the catalogue holds every row the tree asks for |
| ImportLocalComics.RerunCreatesNothing | app/Console/Commands/ImportLocalComics.php:61-87 | importing the same tree twice is importing it once |
| ImportLocalComics.ImportPages | app/Console/Commands/ImportLocalComics.php:74-88 | the page loop computes the page fold |
| ImportLocalComics.ImportChapter | app/Console/Commands/ImportLocalComics.php:57-91 | one chapter folder computes the chapter step |
| ImportLocalComics.ImportChapters | app/Console/Commands/ImportLocalComics.php:57-91 | the chapter loop computes the chapter fold |
| ImportLocalComics.Handle | app/Console/Commands/ImportLocalComics.php:18-95 | handle() computes `Run` |
| FixAzurePaths.RewriteChapters | app/Console/Commands/FixAzurePaths.php:23 | every `chapter-<digits>` match loses its '-', scanning left to right |
| FixAzurePaths.RewritePages | app/Console/Commands/FixAzurePaths.php:24 | every `page-<digits>.jpg` match loses its "page-" |
| FixAzurePaths.CandidateNotLonger | app/Console/Commands/FixAzurePaths.php:23-24 | the candidate is never longer than the original |
| FixAzurePaths.CandidateUnchangedIff | app/Console/Commands/FixAzurePaths.php:23-25 | a path is unchanged exactly when neither pattern applies |
| FixAzurePaths.CandidateKeepsTargetLayout | app/Console/Commands/FixAzurePaths.php:23-25 | a path without '-' is not touched |
| FixAzurePaths.OldLayoutToNew | app/Console/Commands/FixAzurePaths.php:22-24 | `<prefix>chapter-<d>/page-<e>.jpg` becomes `<prefix>chapter<d>/<e>.jpg` |
| FixAzurePaths.ChapterFolderToNew | app/Console/Commands/FixAzurePaths.php:44-45 | `<prefix>chapter-<d><ext>` loses only its '-' |
| FixAzurePaths.CandidateNotIdempotent | app/Console/Commands/FixAzurePaths.php:23-24 | `chapter-page-<d>.jpg` changes again on a second run |
| FixAzurePaths.RunCountsChangedRows | app/Console/Commands/FixAzurePaths.php:25-32 | both counters equal the number of rows a live run changes, in live and dry mode |
| FixAzurePaths.DryRunSavesNothing | app/Console/Commands/FixAzurePaths.php:27 | dry-run saves nothing and exits with 0 |
| FixAzurePaths.LiveRunRewritesPaths | app/Console/Commands/FixAzurePaths.php:41-53 | every page path becomes its candidate, and so does every non-empty cover path; empty covers are skipped |
| FixAzurePaths.FixPagePaths | app/Console/Commands/FixAzurePaths.php:20-33 | the page loop computes the page pass |
| FixAzurePaths.FixPageRows | app/Console/Commands/FixAzurePaths.php:20-33 | outside dry-run every page leaves the loop rewritten, in dry-run untouched; the counter is the number of pages needing a fix and each counted page is saved once outside dry-run |
| FixAzurePaths.FixCoverPaths | app/Console/Commands/FixAzurePaths.php:41-54 | the comic loop computes the cover pass |
| FixAzurePaths.FixCoverRows | app/Console/Commands/FixAzurePaths.php:41-54 | the same for comics, where an empty cover path is never counted or rewritten |
| FixAzurePaths.Handle | app/Console/Commands/FixAzurePaths.php:13-58 | pages, then comics, then exit code 0 |
| ImportCovers.DiskName | app/Console/Commands/ImportCovers.php:30 | the --disk option when it is non-empty, else `public` |
| ImportCovers.FindById | app/Console/Commands/ImportCovers.php:71 | Comic::find(id) is the row at position id - 1 |
| ImportCovers.ComicFor | app/Console/Commands/ImportCovers.php:56-83 | a matched comic is a row of the table (the cascade order is stated by the five lemmas below) |
| ImportCovers.FolderSlugFirst | app/Console/Commands/ImportCovers.php:57-65 | the folder name as an exact slug, then slug(folder) as a prefix |
| ImportCovers.TopLevelFileByNameOnly | app/Console/Commands/ImportCovers.php:58 | a file directly under `covers/` skips the folder steps |
| ImportCovers.IdPrefixWins | app/Console/Commands/ImportCovers.php:69-73 | a `<digits>-` or `<digits>_` name naming a comic's id wins before the slug steps |
| ImportCovers.NestedFileFallsThrough | app/Console/Commands/ImportCovers.php:57-68 | a file in a folder whose exact and prefix slug lookups both miss is matched by its name alone |
| ImportCovers.SlugBeforeUnderscoreBeforePrefix | app/Console/Commands/ImportCovers.php:74-83 | without a usable id prefix, the exact slug before '_' is tried first, and only when it misses the slug of the text before '.' as a prefix |
| ImportCovers.NoMatchSkipped | app/Console/Commands/ImportCovers.php:85-88 | a file with no comic leaves the catalogue unchanged |
| ImportCovers.RunAppendsCovers | app/Console/Commands/ImportCovers.php:91-110 | only primary covers on the chosen disk are appended, never a second (comic_id, path), and the exit code is 0 |
| ImportCovers.DryOrEmptyRunWritesNothing | app/Console/Commands/ImportCovers.php:35-45 | dry-run, a missing `covers` folder or an empty one inserts nothing |
| ImportCovers.RerunInsertsNothing | app/Console/Commands/ImportCovers.php:91-94 | running the import again inserts nothing |
| ImportCovers.LookupComic | app/Console/Commands/ImportCovers.php:56-83 | the cascade, reassigning `comic`, computes `ComicFor` |
| ImportCovers.ImportFile | app/Console/Commands/ImportCovers.php:50-110 | the loop body computes one import step |
| ImportCovers.InsertFound | app/Console/Commands/ImportCovers.php:85-110 | after the lookup: skip when no comic, when the (comic_id, path) cover exists or in dry-run, else insert the cover |
| ImportCovers.Handle | app/Console/Commands/ImportCovers.php:27-116 | handle() computes `Run` |
| MigrateToAzure.MovePage | app/Console/Commands/MigrateToAzure.php:79-82 | the page gets the destination path and keeps its disk, since `disk` is not fillable on Page (app/Models/Page.php:9); a write exactly when the path changes |
| MigrateToAzure.MoveCover | app/Console/Commands/MigrateToAzure.php:151-153 | the cover gets disk `azure` and keeps its path |
| MigrateToAzure.PagesFold | app/Console/Commands/MigrateToAzure.php:31-94 | every page adds one to exactly one counter; table sizes and other rows are kept |
| MigrateToAzure.CoversFold | app/Console/Commands/MigrateToAzure.php:109-164 | every cover adds one to exactly one counter; table sizes and other rows are kept |
| MigrateToAzure.CountersAddUp | app/Console/Commands/MigrateToAzure.php:31-38 | processed + skipped is the number of pages, and likewise for covers |
| MigrateToAzure.MissingRelationSkipsBeforeStorage | app/Console/Commands/MigrateToAzure.php:35-39 | a page without a chapter or a comic is skipped whatever the disks hold |
| MigrateToAzure.PageSourceShape | app/Console/Commands/MigrateToAzure.php:45-50 | the hard-coded source path is never empty and its extension is always "jpg" |
| MigrateToAzure.PageDestinationIsJpg | app/Console/Commands/MigrateToAzure.php:59-62 | the destination is `comics/{slug}/chapter-{number}/page-{page_number}.jpg` |
| MigrateToAzure.PageMovedOnlyOnSuccess | app/Console/Commands/MigrateToAzure.php:66-93 | a page row changes only outside dry-run, after a truthy read and an accepted put, and then only its image_path |
| MigrateToAzure.CoverKeepsPath | app/Console/Commands/MigrateToAzure.php:133-153 | a migrated cover keeps its path, gets disk `azure`, and Azure holds it at that path |
| MigrateToAzure.DryRunChangesNothing | app/Console/Commands/MigrateToAzure.php:66-93 | dry-run writes no row and puts no object |
| MigrateToAzure.MigratePage | app/Console/Commands/MigrateToAzure.php:34-94 | the page-loop body computes the page step |
| MigrateToAzure.CopyPageFile | app/Console/Commands/MigrateToAzure.php:43-93 | the page-loop body from the source path on computes the copy part of the page step |
| MigrateToAzure.MigrateCover | app/Console/Commands/MigrateToAzure.php:112-164 | the cover-loop body computes the cover step |
| MigrateToAzure.MigrateCovers | app/Console/Commands/MigrateToAzure.php:100-168 | migrateCovers() computes the cover fold |
| MigrateToAzure.Handle | app/Console/Commands/MigrateToAzure.php:16-98 | covers first, then pages, with both counter pairs reported |
| ChapterController.StoreCreatesChapter | app/Http/Controllers/ChapterController.php:22-25 | the chapter has the validated number and the given title, or null |
| ChapterController.StoreNumbersPages | app/Http/Controllers/ChapterController.php:28-43 | uploads become pages 1..k in upload order, under `comics/{slug}/chapter-{number as sent in the request}/{filename}` |
| ChapterController.FolderReadsBack | app/Http/Controllers/ChapterController.php:32-34 | the folder's last segment is `chapter-` plus the request value; the import commands' `(int)` read of it gives the cast of that value, which is the stored number when it was sent in plain decimal form |
| ChapterController.NoFilesNoPages | app/Http/Controllers/ChapterController.php:27 | with no uploads, no Page row is created |
| ChapterController.FilenameFallback | app/Http/Controllers/ChapterController.php:30 | the client name when truthy, else `{i+1}.{ext}`, whose stem casts back to the page number |
| ChapterController.StoreChapter | app/Http/Controllers/ChapterController.php:19-48 | store() computes `Store` |
| BookmarkController.StoreLeavesOne | app/Http/Controllers/BookmarkController.php:19 | after store the pair has exactly one row, and other pairs keep theirs |
| BookmarkController.StoreTwiceIsOnce | app/Http/Controllers/BookmarkController.php:19 | storing twice is storing once |
| BookmarkController.DestroyRemovesPair | app/Http/Controllers/BookmarkController.php:25 | after destroy no row of the pair remains, and other pairs keep theirs |
| BookmarkController.DestroyAbsentIsNoop | app/Http/Controllers/BookmarkController.php:25 | destroying an absent bookmark changes nothing |
| BookmarkController.BookmarkTable.Store | app/Http/Controllers/BookmarkController.php:16-21 | the rows become `Stored(old rows, pair)` and keep at most one row per pair |
| BookmarkController.BookmarkTable.Destroy | app/Http/Controllers/BookmarkController.php:23-27 | the rows become `Destroyed(old rows, pair)` and keep at most one row per pair |
| RatingController.StoreThenLookup | app/Http/Controllers/RatingController.php:14-17 | after store the key reads back the stored rating |
| RatingController.StoreKeepsOthers | app/Http/Controllers/RatingController.php:14-17 | every other (user, comic) key reads back what it read before |
| RatingController.StoreKeepsKeysUnique | app/Http/Controllers/RatingController.php:14-15 | there is never a second row per key |
| RatingController.LastWriteWins | app/Http/Controllers/RatingController.php:14-17 | re-rating overwrites the earlier value |
| RatingController.StoreIdempotent | app/Http/Controllers/RatingController.php:14-17 | storing the same rating twice is storing it once |
| RatingController.RatingTable.Store | app/Http/Controllers/RatingController.php:11-19 | the rows become `Rated(old rows, ...)`, keys stay unique, and the key reads back the rating |
| AuthService.RegisterCascade | src/main/java/com/ctoon/services/AuthService.java:23-39 | each failure message is returned exactly when its check fails and the earlier ones pass |
| AuthService.EightCharactersSuffice | src/main/java/com/ctoon/services/AuthService.java:26 | a password of exactly 8 characters passes the length check |
| AuthService.RegisterEffect | src/main/java/com/ctoon/services/AuthService.java:34-60 | failure persists nothing; success adds one user and one linked profile, and emails stay unique |
| AuthService.LoginHidesUnknownEmail | src/main/java/com/ctoon/services/AuthService.java:74-92 | an unknown email and a wrong password get the same answer; success iff the password verifies |
| AuthService.RegisterThenLogin | src/main/java/com/ctoon/services/AuthService.java:21-93 | a registered user can log in with the same email and password |
| AuthService.AuthStore.Register | src/main/java/com/ctoon/services/AuthService.java:21-61 | register() computes `Registration` and keeps emails unique |
| AuthService.AuthStore.Login | src/main/java/com/ctoon/services/AuthService.java:64-93 | login() computes `LoginResult` and changes nothing |
| AppScript.NavigationSteps | resources/js/app.js:180-204 | each step moves by one page exactly when its guard holds; goToPage only to a page in [1, totalPages] |
| AppScript.NavigationKeepsBounds | resources/js/app.js:137-204 | previous, next, goTo and swipe keep the page in [1, totalPages] |
| AppScript.NextThenPrevious | resources/js/app.js:180-196 | forward then back returns to the page, away from the last page |
| AppScript.SwipeThresholdRule | resources/js/app.js:137-148 | \|diff\| <= 50 does nothing; > 50 leftwards is next, rightwards previous |
| AppScript.RestoreCanBreakBounds | resources/js/app.js:168-178 | restoring "7" on a 3-page comic gives page 7; "x" gives NaN, which no step moves |
| AppScript.InitialReaderCannotAdvance | resources/js/app.js:55-59 | starting on page 1 of 0, no navigation step moves the reader |
| AppScript.ComicReader.PreviousPage | resources/js/app.js:180-187 | currentPage becomes `Previous(currentPage)`, nothing else changes |
| AppScript.ComicReader.NextPage | resources/js/app.js:189-196 | currentPage becomes `Next(currentPage, totalPages)` |
| AppScript.ComicReader.GoToPage | resources/js/app.js:198-204 | currentPage becomes `GoTo(currentPage, totalPages, target)` |
| AppScript.ComicReader.HandleSwipe | resources/js/app.js:137-148 | currentPage becomes `Swipe(...)` |
| AppScript.ComicReader.RestoreProgress | resources/js/app.js:168-178 | currentPage becomes `Restore(currentPage, saved)` |
| AppScript.ComicReader.ToggleFullscreen | resources/js/app.js:236-263 | isFullscreen flips |
| AppScript.ComicReader.SetReaderMode | resources/js/app.js:162-166 | readerMode becomes the mode, nothing else changes |
| AppScript.Stars.SetRating | resources/js/app.js:317-325 | star i is active iff i < r |
| AppScript.Stars.PreviewRating | resources/js/app.js:327-335 | star i is hovered iff i < r |
| AppScript.Stars.ResetPreview | resources/js/app.js:337-344 | no star is hovered; `active` is only added, never removed |
| AppScript.SetThemeExclusive | resources/js/app.js:32-36 | the root has the chosen theme class, not the other one, and keeps every non-theme class |
| AppScript.ToggleFlipsDark | resources/js/app.js:22-29 | the toggle flips whether the root is dark |
| AppScript.ThemeRoot.SetTheme | resources/js/app.js:32-40 | stores the choice and swaps the theme class |
| AppScript.ThemeRoot.Toggle | resources/js/app.js:22-29 | after a click, the root is dark iff it was not |
| RatingWidget.NoResubmit | resources/js/rating.js:141-144 | a repeated rating without allowResubmit changes nothing |
| RatingWidget.FailureReverts | resources/js/rating.js:146-170 | a failed request leaves every field as before the call |
| RatingWidget.SuccessKeepsResponse | resources/js/rating.js:147-155 | on success userRating is r, and average and total are the server's |
| RatingWidget.LateThrowRevertsOnlyRating | resources/js/rating.js:150-173 | when a step after the stored response throws, only userRating reverts; the average, total and breakdown stay the server's |
| RatingWidget.SecondSubmitRefused | resources/js/rating.js:139-174 | once a rating is saved, submitting it again is refused |
| RatingWidget.ClampRange | resources/js/rating.js:310-311 | setRating clamps to [1, 5], is the identity there, and is idempotent |
| RatingWidget.BreakdownBounds | resources/js/rating.js:276-280 | 0 with no ratings; otherwise a count within the total gives a value in [0, 100] |
| RatingWidget.ComicRating.constructor | resources/js/rating.js:12-15 | userRating, averageRating and totalRatings start at 0 |
| RatingWidget.ComicRating.UpdateStars | resources/js/rating.js:188-203 | star i is active iff i < userRating, and the input mirrors the rating |
| RatingWidget.ComicRating.SubmitRating | resources/js/rating.js:139-174 | the new state is `Submit(old state, r, allowResubmit, outcome)`; a refused call leaves the stars and the input as they were; otherwise the stars and the input show the final userRating |
| RatingWidget.ComicRating.SetRating | resources/js/rating.js:310-314 | userRating becomes the clamped value, and the stars show it |
| RatingWidget.ComicRating.ResetRating | resources/js/rating.js:316-320 | userRating is 0 and no star is lit |
| RatingWidget.ComicRating.GetBreakdownPercentage | resources/js/rating.js:276-280 | returns `BreakdownPercentage` of the current state |
| ChapterView.PrevChapterIsLargestBelow | resources/views/chapters/show.blade.php:7 | the chapter with the largest number below the current one; none iff no chapter is below |
| ChapterView.NextChapterIsSmallestAbove | resources/views/chapters/show.blade.php:8 | the chapter with the smallest number above the current one; none iff no chapter is above |
| ChapterView.EndsHaveOneLink | resources/views/chapters/show.blade.php:10-15 | the first chapter renders no Prev link, the last no Next link |
| ChapterView.NoPagesNoImage | resources/views/chapters/show.blade.php:22-26 | no image iff there are no pages; otherwise the first URL is shown |
| ChapterView.ClickKeepsIndex | resources/views/chapters/show.blade.php:43-52 | clicks keep 0 <= index < len and move only when the guard holds |
| ChapterView.InlineReader.constructor | resources/views/chapters/show.blade.php:33-35 | index starts at 0 on the first URL |
| ChapterView.InlineReader.OnClick | resources/views/chapters/show.blade.php:43-53 | the index follows `Click`; an empty URL leaves the image as it was |

## Left out

- I/O is modelled as inputs. Storage listings are explicit directory and file lists, `exists` is a set of object paths, and `get` and `put` are oracles. No bytes are copied.
- `putFileAs` in ChapterController.store is taken to succeed and to return `folder/filename`.
- ChapterController.Store: the stored chapter number and the request value it came from are two inputs. The request class that validates `number` is not part of this model, and neither is the database's conversion of that value to the integer column.
- Str::slug, Str::title, Str::random, bcrypt hashing and checking, and JWT generation are function parameters. JWT generation is represented by the user id.
- Eloquent is modelled as plain rows. Mass-assignment filtering (`$fillable`) is modelled only in MigrateToAzure.MovePage, which drops the `disk` attribute that Page does not list. Elsewhere it is not modelled: ImportLocalComics passes `number` and `file_path`, which Page does not list either, and the model writes the keyed page row it intends. LIKE 'x%' is a prefix test, and the database collation is not modelled.
- Java `String.length()` counts UTF-16 code units; the model counts characters.
- PHP and JavaScript integers are unbounded here: no PHP_INT_MAX overflow, and no float precision for large page numbers.
- Text.IntCast: a numeric prefix with a '.' or an exponent is read exactly and truncated toward zero. PHP goes through a double, so it rounds long mantissas, saturates finite values at the 64-bit bounds and gives 0 for a value that overflows the double ("1e400"); none of this is modelled.
- `scandir`, `directories` and `allFiles` order is taken as the given list order.
- Timestamps and `now()` are not modelled. `size` in ImportCovers is an input.
- Averages and percentages are real numbers, not IEEE doubles. `toFixed`, rounding and `formatFileSize` are not modelled.
- RatingWidget.ComicRating.SubmitRating: `sendRatingToServer` returns the raw fetch Response, whose `average` field the source reads as is. The model takes the awaited outcome as an input carrying the parsed fields. Each call is also treated as atomic, but `submitRating` is async: it sets userRating before the await and restores `previousRating` in the catch, so two overlapping calls interleave. Clicking 3 and then 4 before the first request settles, with the first failing and the second succeeding, leaves userRating at 0 (the first call's `previousRating`) while the server stores 4. Overlapping calls, and the lost rating they can leave behind, are not modelled.
- loadRatingData and init are not modelled.
- JavaScript parseInt's `0x` prefix and its exact white-space set are not modelled. Swipe coordinates are integers.
- The DOM is not modelled. Event wiring, the keyboard handler, the `fullscreenchange` listener, saveProgress and localStorage writes, animations, toasts and timers are left out. Only the fields these handlers assign are kept.
- The `$chapter->number ?? ...` fallback in ChapterController.store is not modelled, because the chapter's number is always set. Likewise the `$comic->slug ?? Str::slug(...)` fallback, because the slug column is NOT NULL.
- ChapterView takes the `pages` URL list as given. The `image_url` accessor of Page is a thin storage wrapper and is not part of this model.
- SyncAzureStorage: `preg_match` with the `/i` flag is modelled as ASCII case folding.
- AzCopyMigrate, ComicController, CommentController, ProfileController, the migrations, the Java entities and servlets, and the other scripts are not part of this model.
