/** `azure:fix-paths` (app/Console/Commands/FixAzurePaths.php): rewrite every
    page's image_path and every comic's cover_path with two regular
    expressions, `chapter-(\d+)` to `chapter$1` and then `page-(\d+)\.jpg` to
    `$1.jpg`, saving only the rows whose path changes and counting them. A dry
    run counts the same rows and saves none. */
module FixAzurePaths {
  import opened Text
  import opened Catalog

  // ---------------------------------------------------------------- the two replacements

  /** `chapter-(\d+)` matches at i. */
  predicate ChapterMatchAt(s: string, i: nat)
  {
    LitDigitAt(s, "chapter-", i)
  }

  /** `page-(\d+)\.jpg` matches at i: "page-", the longest digit run (at least
      one digit; \d+ is greedy and a shorter run would leave a digit before
      the '.'), then ".jpg". */
  predicate PageMatchAt(s: string, i: nat)
  {
    LitDigitAt(s, "page-", i) &&
    var n := i + 5 + |DigitPrefix(s[i + 5..])|;
    n + 4 <= |s| && s[n..n + 4] == ".jpg"
  }

  ghost predicate NoChapterMatch(s: string) { forall i :: 0 <= i < |s| ==> !ChapterMatchAt(s, i) }

  ghost predicate NoPageMatch(s: string) { forall i :: 0 <= i < |s| ==> !PageMatchAt(s, i) }

  /** preg_replace('#chapter-(\d+)#', 'chapter$1', s): scanning left to right,
      every match loses its '-' and the scan resumes after the digits. */
  function RewriteChapters(s: string): (r: string)
    ensures |r| <= |s|
    decreases |s|
  {
    if s == [] then []
    else if ChapterMatchAt(s, 0) then
      var digits := DigitPrefix(s[8..]);
      "chapter" + digits + RewriteChapters(s[8 + |digits|..])
    else [s[0]] + RewriteChapters(s[1..])
  }

  /** preg_replace('#page-(\d+)\.jpg#', '$1.jpg', s): every match loses its
      "page-" and the scan resumes after the ".jpg". */
  function RewritePages(s: string): (r: string)
    ensures |r| <= |s|
    decreases |s|
  {
    if s == [] then []
    else if PageMatchAt(s, 0) then
      var digits := DigitPrefix(s[5..]);
      digits + ".jpg" + RewritePages(s[5 + |digits| + 4..])
    else [s[0]] + RewritePages(s[1..])
  }

  /** The candidate path: the chapter replacement, then the page replacement. */
  function Candidate(s: string): string
  {
    RewritePages(RewriteChapters(s))
  }

  // ---------------------------------------------------------------- what the replacements do

  /** A slice of the tail s[1..] is the slice of s one position further on. */
  lemma TailSlice(s: string, a: nat, b: nat)
    requires a <= b < |s|
    ensures s[1..][a..b] == s[a + 1..b + 1]
  {
    forall i | 0 <= i < b - a ensures s[1..][a..b][i] == s[a + 1..b + 1][i] {
      assert s[1..][a..b][i] == s[a + 1 + i];
    }
  }

  lemma ChapterMatchShift(s: string, j: nat)
    requires s != []
    ensures ChapterMatchAt(s[1..], j) <==> ChapterMatchAt(s, j + 1)
  {
    var t := s[1..];
    if j + 8 < |t| {
      TailSlice(s, j, j + 8);
      assert t[j + 8] == s[j + 9];
    }
  }

  lemma PageMatchShift(s: string, j: nat)
    requires s != []
    ensures PageMatchAt(s[1..], j) <==> PageMatchAt(s, j + 1)
  {
    var t := s[1..];
    if j + 5 < |t| {
      TailSlice(s, j, j + 5);
      assert t[j + 5..] == s[j + 6..];
      var n := j + 5 + |DigitPrefix(s[j + 6..])|;
      if n + 4 <= |t| {
        TailSlice(s, n, n + 4);
      }
    }
  }

  lemma NoChapterMatchTail(s: string, k: nat)
    requires 0 < k <= |s|
    requires forall i :: 0 <= i < k ==> !ChapterMatchAt(s, i)
    ensures forall j :: 0 <= j < k - 1 ==> !ChapterMatchAt(s[1..], j)
  {
    forall j | 0 <= j < k - 1 ensures !ChapterMatchAt(s[1..], j) {
      ChapterMatchShift(s, j);
    }
  }

  lemma NoPageMatchTail(s: string, k: nat)
    requires 0 < k <= |s|
    requires forall i :: 0 <= i < k ==> !PageMatchAt(s, i)
    ensures forall j :: 0 <= j < k - 1 ==> !PageMatchAt(s[1..], j)
  {
    forall j | 0 <= j < k - 1 ensures !PageMatchAt(s[1..], j) {
      PageMatchShift(s, j);
    }
  }

  lemma SliceAfterHead(s: string, k: nat)
    requires 0 < k <= |s|
    ensures s[1..][..k - 1] == s[1..k] && s[1..][k - 1..] == s[k..]
    ensures [s[0]] + s[1..k] == s[..k]
  {
  }

  /** Where no match starts in the first k characters, they are copied. */
  lemma {:induction false} RewriteChaptersSkip(s: string, k: nat)
    requires k <= |s|
    requires forall i :: 0 <= i < k ==> !ChapterMatchAt(s, i)
    ensures RewriteChapters(s) == s[..k] + RewriteChapters(s[k..])
    decreases k
  {
    if k > 0 {
      assert !ChapterMatchAt(s, 0);
      NoChapterMatchTail(s, k);
      RewriteChaptersSkip(s[1..], k - 1);
      RewriteChaptersSkipStep(s, k);
    }
  }

  /** Copying the head of s in front of a rewrite of s[1..] that copies the
      next k - 1 characters copies the first k. */
  lemma CopyHead(s: string, k: nat, whole: string, tail: string, after: string)
    requires 0 < k <= |s|
    requires whole == [s[0]] + tail && tail == s[1..k] + after
    ensures whole == s[..k] + after
  {
    assert [s[0]] + s[1..k] == s[..k];
  }

  /** One step of RewriteChaptersSkip: a head that does not match is copied. */
  lemma RewriteChaptersSkipStep(s: string, k: nat)
    requires 0 < k <= |s| && !ChapterMatchAt(s, 0)
    requires RewriteChapters(s[1..]) == s[1..][..k - 1] + RewriteChapters(s[1..][k - 1..])
    ensures RewriteChapters(s) == s[..k] + RewriteChapters(s[k..])
  {
    SliceAfterHead(s, k);
    assert RewriteChapters(s) == [s[0]] + RewriteChapters(s[1..]);
    CopyHead(s, k, RewriteChapters(s), RewriteChapters(s[1..]), RewriteChapters(s[k..]));
  }

  lemma {:induction false} RewritePagesSkip(s: string, k: nat)
    requires k <= |s|
    requires forall i :: 0 <= i < k ==> !PageMatchAt(s, i)
    ensures RewritePages(s) == s[..k] + RewritePages(s[k..])
    decreases k
  {
    if k > 0 {
      assert !PageMatchAt(s, 0);
      NoPageMatchTail(s, k);
      RewritePagesSkip(s[1..], k - 1);
      RewritePagesSkipStep(s, k);
    }
  }

  /** One step of RewritePagesSkip: a head that does not match is copied. */
  lemma RewritePagesSkipStep(s: string, k: nat)
    requires 0 < k <= |s| && !PageMatchAt(s, 0)
    requires RewritePages(s[1..]) == s[1..][..k - 1] + RewritePages(s[1..][k - 1..])
    ensures RewritePages(s) == s[..k] + RewritePages(s[k..])
  {
    SliceAfterHead(s, k);
    assert RewritePages(s) == [s[0]] + RewritePages(s[1..]);
    CopyHead(s, k, RewritePages(s), RewritePages(s[1..]), RewritePages(s[k..]));
  }

  lemma RewriteChaptersNoMatch(s: string)
    requires NoChapterMatch(s)
    ensures RewriteChapters(s) == s
  {
    RewriteChaptersSkip(s, |s|);
    assert s[..|s|] == s;
  }

  lemma RewritePagesNoMatch(s: string)
    requires NoPageMatch(s)
    ensures RewritePages(s) == s
  {
    RewritePagesSkip(s, |s|);
    assert s[..|s|] == s;
  }

  lemma {:induction false} RewriteChaptersShrinks(s: string, i: nat)
    requires i < |s| && ChapterMatchAt(s, i)
    ensures |RewriteChapters(s)| < |s|
    decreases |s|
  {
    if !ChapterMatchAt(s, 0) {
      ChapterMatchShift(s, i - 1);
      RewriteChaptersShrinks(s[1..], i - 1);
    }
  }

  lemma {:induction false} RewritePagesShrinks(s: string, i: nat)
    requires i < |s| && PageMatchAt(s, i)
    ensures |RewritePages(s)| < |s|
    decreases |s|
  {
    if !PageMatchAt(s, 0) {
      PageMatchShift(s, i - 1);
      RewritePagesShrinks(s[1..], i - 1);
    }
  }

  /** Both patterns contain a '-', which the chapter pattern has at offset 7
      and the page pattern at offset 4. */
  lemma MatchesNeedDash(s: string, i: nat)
    ensures ChapterMatchAt(s, i) ==> s[i] == 'c' && s[i + 7] == '-'
    ensures PageMatchAt(s, i) ==> s[i + 4] == '-'
  {
    if ChapterMatchAt(s, i) {
      assert s[i..i + 8][0] == s[i] && s[i..i + 8][7] == s[i + 7];
    }
    if PageMatchAt(s, i) {
      assert s[i..i + 5][4] == s[i + 4];
    }
  }

  lemma NoMatchWithoutDash(s: string, m: nat)
    requires m <= |s| && '-' !in s[..m]
    ensures forall i :: 0 <= i && i + 7 < m ==> !ChapterMatchAt(s, i)
    ensures forall i :: 0 <= i && i + 4 < m ==> !PageMatchAt(s, i)
  {
    forall i | 0 <= i && i + 4 < m ensures !ChapterMatchAt(s, i) || i + 7 >= m
      ensures !PageMatchAt(s, i)
    {
      MatchesNeedDash(s, i);
      assert s[..m][i + 4] == s[i + 4];
      if i + 7 < m {
        assert s[..m][i + 7] == s[i + 7];
      }
    }
  }

  /** The rewrite only deletes characters: the candidate is never longer. */
  lemma CandidateNotLonger(s: string)
    ensures |Candidate(s)| <= |s|
  {
  }

  /** A path is left as it is exactly when neither replacement applies: no
      `chapter-<digit>` in it, and no `page-<digits>.jpg` once the chapter
      replacement has run (which, when there is no chapter match, is the path
      itself). */
  lemma CandidateUnchangedIff(s: string)
    ensures Candidate(s) == s <==> NoChapterMatch(s) && NoPageMatch(s)
  {
    if NoChapterMatch(s) {
      RewriteChaptersNoMatch(s);
      if NoPageMatch(s) {
        RewritePagesNoMatch(s);
      } else {
        var i :| 0 <= i < |s| && PageMatchAt(s, i);
        RewritePagesShrinks(s, i);
      }
    } else {
      var i :| 0 <= i < |s| && ChapterMatchAt(s, i);
      RewriteChaptersShrinks(s, i);
    }
  }

  /** A path without a '-' (the target layout) is not touched. */
  lemma CandidateKeepsTargetLayout(s: string)
    requires '-' !in s
    ensures Candidate(s) == s
  {
    RewriteChaptersDashFree(s);
    RewritePagesDashFree(s);
  }

  lemma TargetLayoutExample(s: string)
    requires s == "comics/x/chapter3/12.jpg"
    ensures Candidate(s) == s
  {
    assert '-' !in s by {
      forall i | 0 <= i < |s| ensures s[i] != '-' {
      }
    }
    CandidateKeepsTargetLayout(s);
  }

  /** A chapter match with digits d that leaves the rest alone. */
  lemma RewriteChapterHead(d: string, rest: string)
    requires d != [] && AllDigits(d) && 'c' !in rest
    requires rest == [] || !IsDigit(rest[0])
    ensures RewriteChapters("chapter-" + d + rest) == "chapter" + d + rest
  {
    var s := "chapter-" + d + rest;
    assert ChapterMatchAt(s, 0) && s[8..] == d + rest by {
      assert s[..8] == "chapter-" && s[8] == d[0];
    }
    DigitsThenOther(d, rest);
    assert s[8 + |d|..] == rest;
    RewriteChaptersAtMatch(s);
    RewriteChaptersWithoutC(rest);
  }

  /** At a match the scan emits "chapter" and the digits, then resumes after them. */
  lemma RewriteChaptersAtMatch(s: string)
    requires ChapterMatchAt(s, 0)
    ensures var digits := DigitPrefix(s[8..]);
      RewriteChapters(s) == "chapter" + digits + RewriteChapters(s[8 + |digits|..])
  {
  }

  /** Every chapter match starts with a 'c', so a path without one is not touched. */
  lemma RewriteChaptersWithoutC(s: string)
    requires 'c' !in s
    ensures RewriteChapters(s) == s
  {
    forall i | 0 <= i < |s| ensures !ChapterMatchAt(s, i) {
      MatchesNeedDash(s, i);
    }
    RewriteChaptersNoMatch(s);
  }

  /** A page match with digits d followed by ".jpg". */
  lemma RewritePageHead(d: string, rest: string)
    requires d != [] && AllDigits(d)
    ensures RewritePages("page-" + d + ".jpg" + rest) == d + ".jpg" + RewritePages(rest)
  {
    var s := "page-" + d + ".jpg" + rest;
    assert s[..5] == "page-" && s[5] == d[0];
    assert s[5..] == d + (".jpg" + rest);
    DigitsThenOther(d, ".jpg" + rest);
    assert s[5 + |d|..5 + |d| + 4] == ".jpg";
    assert PageMatchAt(s, 0);
    assert s[5 + |d| + 4..] == rest;
  }

  /** A prefix without a '-', followed by seven characters without one, is
      copied by both replacements. */
  lemma RewriteChaptersAfterDashFree(prefix: string, t: string)
    requires '-' !in prefix && |t| >= 7 && '-' !in t[..7]
    ensures RewriteChapters(prefix + t) == prefix + RewriteChapters(t)
  {
    var s := prefix + t;
    assert s[..|prefix| + 7] == prefix + t[..7];
    NoMatchWithoutDash(s, |prefix| + 7);
    RewriteChaptersSkip(s, |prefix|);
    assert s[..|prefix|] == prefix && s[|prefix|..] == t;
  }

  lemma RewritePagesAfterDashFree(prefix: string, t: string)
    requires '-' !in prefix && |t| >= 4 && '-' !in t[..4]
    ensures RewritePages(prefix + t) == prefix + RewritePages(t)
  {
    var s := prefix + t;
    assert s[..|prefix| + 4] == prefix + t[..4];
    NoMatchWithoutDash(s, |prefix| + 4);
    RewritePagesSkip(s, |prefix|);
    assert s[..|prefix|] == prefix && s[|prefix|..] == t;
  }

  /** How the old-layout path splits around the two matches. */
  lemma OldLayoutPieces(prefix: string, d: string, e: string)
    requires AllDigits(d) && AllDigits(e)
    ensures var rest := "/page-" + e + ".jpg";
      ("chapter-" + d + rest)[..7] == "chapter" && 'c' !in rest &&
      prefix + ("chapter-" + d + rest) == prefix + "chapter-" + d + "/page-" + e + ".jpg" &&
      prefix + ("chapter" + d + rest) == prefix + "chapter" + d + "/page-" + e + ".jpg"
    ensures var head := prefix + "chapter" + d + "/";
      var tail := "page-" + e + ".jpg" + [];
      tail[..4] == "page" && tail == "page-" + e + ".jpg" &&
      head + tail == prefix + "chapter" + d + "/page-" + e + ".jpg" &&
      head + (e + ".jpg") == prefix + "chapter" + d + "/" + e + ".jpg"
  {
    var rest := "/page-" + e + ".jpg";
    assert rest == "/page-" + (e + ".jpg");
    assert forall k :: 0 <= k < |e| ==> e[k] != 'c';
  }

  lemma OldLayoutChapters(prefix: string, d: string, e: string)
    requires '-' !in prefix
    requires d != [] && AllDigits(d) && AllDigits(e)
    ensures RewriteChapters(prefix + "chapter-" + d + "/page-" + e + ".jpg") == prefix + "chapter" + d + "/page-" + e + ".jpg"
  {
    OldLayoutPieces(prefix, d, e);
    var rest := "/page-" + e + ".jpg";
    RewriteChaptersAfterDashFree(prefix, "chapter-" + d + rest);
    RewriteChapterHead(d, rest);
  }

  lemma OldLayoutPages(prefix: string, d: string, e: string)
    requires '-' !in prefix
    requires AllDigits(d) && e != [] && AllDigits(e)
    ensures RewritePages(prefix + "chapter" + d + "/page-" + e + ".jpg") == prefix + "chapter" + d + "/" + e + ".jpg"
  {
    OldLayoutPieces(prefix, d, e);
    var head := prefix + "chapter" + d + "/";
    assert '-' !in head by {
      assert forall j :: 0 <= j < |d| ==> d[j] != '-';
    }
    RewritePagesAfterDashFree(head, "page-" + e + ".jpg" + []);
    RewritePageHead(e, []);
  }

  /** The move the command was written for: a path in the old layout
      `<prefix>chapter-<d>/page-<e>.jpg` becomes `<prefix>chapter<d>/<e>.jpg`
      (the prefix, such as "comics/<slug>/", without a '-'). */
  lemma OldLayoutToNew(prefix: string, d: string, e: string)
    requires '-' !in prefix
    requires d != [] && AllDigits(d) && e != [] && AllDigits(e)
    ensures Candidate(prefix + "chapter-" + d + "/page-" + e + ".jpg") == prefix + "chapter" + d + "/" + e + ".jpg"
  {
    OldLayoutChapters(prefix, d, e);
    OldLayoutPages(prefix, d, e);
  }

  lemma RewriteChaptersDashFree(s: string)
    requires '-' !in s
    ensures RewriteChapters(s) == s
  {
    assert s[..|s|] == s;
    NoMatchWithoutDash(s, |s|);
    RewriteChaptersNoMatch(s);
  }

  lemma RewritePagesDashFree(s: string)
    requires '-' !in s
    ensures RewritePages(s) == s
  {
    assert s[..|s|] == s;
    NoMatchWithoutDash(s, |s|);
    RewritePagesNoMatch(s);
  }

  lemma ChapterFolderPieces(prefix: string, d: string, ext: string)
    requires '-' !in prefix && '-' !in ext && AllDigits(d)
    ensures ("chapter-" + d + ext)[..7] == "chapter"
    ensures prefix + ("chapter-" + d + ext) == prefix + "chapter-" + d + ext
    ensures prefix + ("chapter" + d + ext) == prefix + "chapter" + d + ext
    ensures '-' !in prefix + "chapter" + d + ext
  {
    assert forall j :: 0 <= j < |d| ==> d[j] != '-';
  }

  /** A cover path `<prefix>chapter-<d><ext>` loses only its '-'. */
  lemma ChapterFolderToNew(prefix: string, d: string, ext: string)
    requires '-' !in prefix && '-' !in ext && 'c' !in ext
    requires d != [] && AllDigits(d) && (ext == [] || !IsDigit(ext[0]))
    ensures Candidate(prefix + "chapter-" + d + ext) == prefix + "chapter" + d + ext
  {
    ChapterFolderPieces(prefix, d, ext);
    RewriteChaptersAfterDashFree(prefix, "chapter-" + d + ext);
    RewriteChapterHead(d, ext);
    RewritePagesDashFree(prefix + "chapter" + d + ext);
  }

  /** `chapter-page-<d>.jpg` has no chapter match: the only 'c' is followed by
      "hapter-" and then 'p', not a digit. */
  lemma ChapterPageNoChapterMatch(d: string)
    requires d != [] && AllDigits(d)
    ensures NoChapterMatch("chapter-page-" + d + ".jpg")
  {
    var s := "chapter-page-" + d + ".jpg";
    assert 'c' !in s[1..] by {
      assert s[1..] == "hapter-page-" + (d + ".jpg");
      assert forall k :: 0 <= k < |d| ==> d[k] != 'c';
    }
    assert s[8] == 'p';
    forall i | 0 <= i < |s| ensures !ChapterMatchAt(s, i) {
      MatchesNeedDash(s, i);
      if i > 0 {
        assert s[i] == s[1..][i - 1];
      }
    }
  }

  /** Nor a page match among its first eight positions: the only '-' there
      closes "chapter-", not "page-". */
  lemma ChapterPageNoEarlyPageMatch(d: string)
    ensures forall i :: 0 <= i < 8 ==> !PageMatchAt("chapter-page-" + d + ".jpg", i)
  {
    var s := "chapter-page-" + d + ".jpg";
    assert s[..12] == "chapter-page";
    forall i | 0 <= i < 8 ensures !PageMatchAt(s, i) {
      MatchesNeedDash(s, i);
      if i == 3 {
        assert s[3..8] != "page-" by { assert s[3..8][1] == s[4] == 't'; }
      } else {
        assert s[i + 4] == s[..12][i + 4];
      }
    }
  }

  lemma ChapterPagePieces(d: string)
    ensures var s := "chapter-page-" + d + ".jpg";
      s[..8] == "chapter-" && s[8..] == "page-" + d + ".jpg" + [] &&
      s[..8] + (d + ".jpg") == "chapter-" + d + ".jpg"
  {
  }

  /** The page replacement can create a chapter match of its own. */
  lemma PageRewriteMakesChapterMatch(d: string)
    requires d != [] && AllDigits(d)
    ensures Candidate("chapter-page-" + d + ".jpg") == "chapter-" + d + ".jpg"
  {
    var s := "chapter-page-" + d + ".jpg";
    ChapterPageNoChapterMatch(d);
    ChapterPageNoEarlyPageMatch(d);
    RewriteChaptersNoMatch(s);
    RewritePagesSkip(s, 8);
    ChapterPagePieces(d);
    RewritePageHead(d, []);
  }

  /** So the rewrite is not idempotent: a second run changes
      `chapter-page-<d>.jpg` again. */
  lemma CandidateNotIdempotent(d: string)
    requires d != [] && AllDigits(d)
    ensures var once := Candidate("chapter-page-" + d + ".jpg");
      Candidate(once) == "chapter" + d + ".jpg" != once
  {
    PageRewriteMakesChapterMatch(d);
    assert 'c' !in ".jpg";
    ChapterFolderToNew([], d, ".jpg");
    assert [] + "chapter-" + d + ".jpg" == "chapter-" + d + ".jpg";
    assert [] + "chapter" + d + ".jpg" == "chapter" + d + ".jpg";
    assert |"chapter" + d + ".jpg"| < |"chapter-" + d + ".jpg"|;
  }

  // ---------------------------------------------------------------- the rows

  /* The two loops are written for any path rewrite `rw`; the command runs
     them with Candidate. */

  predicate PageNeedsFix(p: Page, rw: string -> string)
  {
    rw(p.imagePath) != p.imagePath
  }

  function FixPage(p: Page, rw: string -> string): Page
  {
    p.(imagePath := rw(p.imagePath))
  }

  function FixPages(ps: seq<Page>, rw: string -> string): (r: seq<Page>)
    ensures |r| == |ps|
  {
    seq(|ps|, i requires 0 <= i < |ps| => FixPage(ps[i], rw))
  }

  /** How many pages the loop counts as updated. */
  function PagesNeedingFix(ps: seq<Page>, rw: string -> string): nat
  {
    if ps == [] then 0
    else PagesNeedingFix(ps[..|ps| - 1], rw) + (if PageNeedsFix(ps[|ps| - 1], rw) then 1 else 0)
  }

  /** `empty(cover_path)` skips the comic; otherwise it is updated when its
      candidate differs. */
  predicate ComicNeedsFix(c: Comic, rw: string -> string)
  {
    Present(c.coverPath) && rw(c.coverPath.value) != c.coverPath.value
  }

  function FixComic(c: Comic, rw: string -> string): Comic
  {
    if ComicNeedsFix(c, rw) then c.(coverPath := Some(rw(c.coverPath.value))) else c
  }

  function FixComics(cs: seq<Comic>, rw: string -> string): (r: seq<Comic>)
    ensures |r| == |cs|
  {
    seq(|cs|, i requires 0 <= i < |cs| => FixComic(cs[i], rw))
  }

  function ComicsNeedingFix(cs: seq<Comic>, rw: string -> string): nat
  {
    if cs == [] then 0
    else ComicsNeedingFix(cs[..|cs| - 1], rw) + (if ComicNeedsFix(cs[|cs| - 1], rw) then 1 else 0)
  }

  /** The pages pass: the counter, and outside dry-run the rewritten pages
      with one save per changed row. */
  function PagesPass(db: Db, dry: bool, rw: string -> string): (Db, nat)
  {
    var n := PagesNeedingFix(db.pages, rw);
    if dry then (db, n) else (db.(pages := FixPages(db.pages, rw), writes := db.writes + n), n)
  }

  function ComicsPass(db: Db, dry: bool, rw: string -> string): (Db, nat)
  {
    var n := ComicsNeedingFix(db.comics, rw);
    if dry then (db, n) else (db.(comics := FixComics(db.comics, rw), writes := db.writes + n), n)
  }

  /** The outcome of the command. */
  datatype Report = Report(code: int, db: Db, pagesUpdated: nat, comicsUpdated: nat)

  function Run(db: Db, dry: bool): Report
  {
    var pages := PagesPass(db, dry, Candidate);
    var comics := ComicsPass(pages.0, dry, Candidate);
    Report(0, comics.0, pages.1, comics.1)
  }

  // ---------------------------------------------------------------- what the counters mean

  /** The number of positions where two equally long tables differ. */
  function ChangedRows<T(==)>(a: seq<T>, b: seq<T>): nat
    requires |a| == |b|
  {
    if a == [] then 0
    else ChangedRows(a[..|a| - 1], b[..|b| - 1]) + (if a[|a| - 1] != b[|b| - 1] then 1 else 0)
  }

  lemma {:induction false} PagesCountIsChangedRows(ps: seq<Page>, rw: string -> string)
    ensures PagesNeedingFix(ps, rw) == ChangedRows(ps, FixPages(ps, rw))
  {
    if ps != [] {
      var init := ps[..|ps| - 1];
      assert FixPages(ps, rw)[..|ps| - 1] == FixPages(init, rw);
      PagesCountIsChangedRows(init, rw);
      var p := ps[|ps| - 1];
      assert PageNeedsFix(p, rw) <==> FixPage(p, rw) != p;
    }
  }

  lemma {:induction false} ComicsCountIsChangedRows(cs: seq<Comic>, rw: string -> string)
    ensures ComicsNeedingFix(cs, rw) == ChangedRows(cs, FixComics(cs, rw))
  {
    if cs != [] {
      var init := cs[..|cs| - 1];
      assert FixComics(cs, rw)[..|cs| - 1] == FixComics(init, rw);
      ComicsCountIsChangedRows(init, rw);
      var c := cs[|cs| - 1];
      assert ComicNeedsFix(c, rw) <==> FixComic(c, rw) != c;
    }
  }

  /** Both counters, in live and in dry mode, equal the number of rows a live
      run changes, and a live run saves exactly those rows. */
  lemma RunCountsChangedRows(db: Db, dry: bool)
    ensures var live := Run(db, false);
      var r := Run(db, dry);
      r.pagesUpdated == ChangedRows(db.pages, live.db.pages) &&
      r.comicsUpdated == ChangedRows(db.comics, live.db.comics) &&
      live.db.writes == db.writes + r.pagesUpdated + r.comicsUpdated
  {
    PagesCountIsChangedRows(db.pages, Candidate);
    ComicsCountIsChangedRows(db.comics, Candidate);
  }

  /** A dry run saves nothing and exits with 0. */
  lemma DryRunSavesNothing(db: Db)
    ensures Run(db, true).db == db && Run(db, true).code == 0
  {
  }

  /** Live: every page path is its candidate, a comic whose cover path is empty
      is left alone, any other comic's cover path is its candidate; the genres,
      chapters and covers are untouched. */
  lemma LiveRunRewritesPaths(db: Db)
    ensures var r := Run(db, false).db;
      |r.pages| == |db.pages| && |r.comics| == |db.comics| &&
      (forall i :: 0 <= i < |db.pages| ==> r.pages[i] == db.pages[i].(imagePath := Candidate(db.pages[i].imagePath))) &&
      (forall i :: 0 <= i < |db.comics| && !Present(db.comics[i].coverPath) ==> r.comics[i] == db.comics[i]) &&
      (forall i :: 0 <= i < |db.comics| && Present(db.comics[i].coverPath) ==>
        r.comics[i] == db.comics[i].(coverPath := Some(Candidate(db.comics[i].coverPath.value)))) &&
      r.genres == db.genres && r.chapters == db.chapters && r.covers == db.covers
  {
    var r := Run(db, false).db;
    forall i | 0 <= i < |db.comics| && Present(db.comics[i].coverPath)
      ensures r.comics[i] == db.comics[i].(coverPath := Some(Candidate(db.comics[i].coverPath.value)))
    {
      var c := db.comics[i];
      if !ComicNeedsFix(c, Candidate) {
        assert c.coverPath == Some(c.coverPath.value);
      }
    }
  }

  // ---------------------------------------------------------------- the command

  lemma PagesNeedingFixSnoc(ps: seq<Page>, i: nat, rw: string -> string)
    requires i < |ps|
    ensures PagesNeedingFix(ps[..i + 1], rw) == PagesNeedingFix(ps[..i], rw) + (if PageNeedsFix(ps[i], rw) then 1 else 0)
  {
    assert ps[..i + 1][..i] == ps[..i];
  }

  lemma ComicsNeedingFixSnoc(cs: seq<Comic>, i: nat, rw: string -> string)
    requires i < |cs|
    ensures ComicsNeedingFix(cs[..i + 1], rw) == ComicsNeedingFix(cs[..i], rw) + (if ComicNeedsFix(cs[i], rw) then 1 else 0)
  {
    assert cs[..i + 1][..i] == cs[..i];
  }

  /** The loop over all pages: a page whose rewritten path differs is counted
      and, outside dry-run, saved with that path. */
  method FixPagePaths(db0: Db, dry: bool, rw: string -> string) returns (db: Db, updated: nat)
    ensures (db, updated) == PagesPass(db0, dry, rw)
  {
    var pages, saves;
    pages, updated, saves := FixPageRows(db0.pages, dry, rw);
    db := db0.(pages := pages, writes := db0.writes + saves);
  }

  /** The page loop on the rows themselves: the rows it leaves, the counter
      and the number of saves. */
  method FixPageRows(rows: seq<Page>, dry: bool, rw: string -> string) returns (pages: seq<Page>, updated: nat, saves: nat)
    ensures pages == if dry then rows else FixPages(rows, rw)
    ensures updated == PagesNeedingFix(rows, rw)
    ensures saves == if dry then 0 else updated
  {
    ghost var target := if dry then rows else FixPages(rows, rw);
    pages := rows;
    updated := 0;
    saves := 0;
    var i := 0;
    while i < |pages|
      invariant 0 <= i <= |pages| == |rows| == |target|
      invariant forall j :: i <= j < |pages| ==> pages[j] == rows[j]
      invariant forall j :: 0 <= j < i ==> pages[j] == target[j]
      invariant updated == PagesNeedingFix(rows[..i], rw)
      invariant saves == if dry then 0 else updated
    {
      PagesNeedingFixSnoc(rows, i, rw);
      var original := pages[i].imagePath;
      var candidate := rw(original);
      if candidate != original {
        if !dry {
          pages := pages[i := pages[i].(imagePath := candidate)];
          saves := saves + 1;
        }
        updated := updated + 1;
      }
      i := i + 1;
    }
    assert rows[..i] == rows;
    assert pages == target;
  }

  /** The loop over all comics: a comic with an empty cover path is skipped;
      one whose rewritten cover path differs is counted and, outside dry-run,
      saved with that path. */
  method FixCoverPaths(db0: Db, dry: bool, rw: string -> string) returns (db: Db, updated: nat)
    ensures (db, updated) == ComicsPass(db0, dry, rw)
  {
    var comics, saves;
    comics, updated, saves := FixCoverRows(db0.comics, dry, rw);
    db := db0.(comics := comics, writes := db0.writes + saves);
  }

  /** The comic loop on the rows themselves. */
  method FixCoverRows(rows: seq<Comic>, dry: bool, rw: string -> string) returns (comics: seq<Comic>, updated: nat, saves: nat)
    ensures comics == if dry then rows else FixComics(rows, rw)
    ensures updated == ComicsNeedingFix(rows, rw)
    ensures saves == if dry then 0 else updated
  {
    ghost var target := if dry then rows else FixComics(rows, rw);
    comics := rows;
    updated := 0;
    saves := 0;
    var i := 0;
    while i < |comics|
      invariant 0 <= i <= |comics| == |rows| == |target|
      invariant forall j :: i <= j < |comics| ==> comics[j] == rows[j]
      invariant forall j :: 0 <= j < i ==> comics[j] == target[j]
      invariant updated == ComicsNeedingFix(rows[..i], rw)
      invariant saves == if dry then 0 else updated
    {
      ComicsNeedingFixSnoc(rows, i, rw);
      var c := comics[i];
      if Present(c.coverPath) {
        var original := c.coverPath.value;
        var candidate := rw(original);
        if candidate != original {
          if !dry {
            comics := comics[i := c.(coverPath := Some(candidate))];
            saves := saves + 1;
          }
          updated := updated + 1;
        }
      }
      i := i + 1;
    }
    assert rows[..i] == rows;
    assert comics == target;
  }

  /** handle(): pages, then comics, then exit code 0. */
  method Handle(db0: Db, dry: bool) returns (r: Report)
    ensures r == Run(db0, dry)
  {
    var db, updated := FixPagePaths(db0, dry, Candidate);
    var db2, cUpdated := FixCoverPaths(db, dry, Candidate);
    r := Report(0, db2, updated, cUpdated);
  }
}
