/** The page reader, star helpers and theme switch of resources/js/app.js,
    separated from the DOM: each object keeps only the fields its methods
    assign. JavaScript numbers read from the page are integers or NaN. */
module AppScript {
  import opened Text

  /** A JavaScript number as the reader sees it: an integer, or NaN from a failed parseInt. */
  datatype JsNum = Num(n: int) | NaN

  /** JavaScript's parseInt(s) in base 10: leading white space, an optional
      sign, then the leading digit run; NaN when there is no digit. */
  function ParseInt(s: string): JsNum
  {
    var t := SkipSpace(s);
    var negative := t != [] && t[0] == '-';
    var body := if t != [] && (t[0] == '-' || t[0] == '+') then t[1..] else t;
    var digits := DigitPrefix(body);
    if digits == [] then NaN
    else if negative then Num(-(DigitsValue(digits) as int)) else Num(DigitsValue(digits))
  }

  // ---------------------------------------------------------------- ComicReader

  /** The reader's invariant: the current page is a page of the comic. */
  predicate InBounds(page: JsNum, total: int)
  {
    page.Num? && 1 <= page.n <= total
  }

  /** previousPage(): back one page unless on the first. */
  function Previous(page: JsNum): JsNum
  {
    if page.Num? && page.n > 1 then Num(page.n - 1) else page
  }

  /** nextPage(): forward one page unless on the last. */
  function Next(page: JsNum, total: int): JsNum
  {
    if page.Num? && page.n < total then Num(page.n + 1) else page
  }

  /** goToPage(p): jump only to a page that exists. */
  function GoTo(page: JsNum, total: int, target: JsNum): JsNum
  {
    if target.Num? && target.n >= 1 && target.n <= total then target else page
  }

  const SwipeThreshold := 50

  /** handleSwipe(start, end): a swipe longer than the threshold turns the
      page, leftwards (start > end) forward. */
  function Swipe(page: JsNum, total: int, startX: int, endX: int): JsNum
  {
    var diff := startX - endX;
    if diff > SwipeThreshold || -diff > SwipeThreshold then
      if diff > 0 then Next(page, total) else Previous(page)
    else page
  }

  /** setupProgressTracking(): a saved value, when there is a non-empty one,
      replaces the page with no bounds check. */
  function Restore(page: JsNum, saved: Option<string>): JsNum
  {
    if saved.Some? && saved.value != "" then ParseInt(saved.value) else page
  }

  /** Each navigation step moves by one page, or to the requested page, or not at all. */
  lemma NavigationSteps(page: JsNum, total: int, target: JsNum)
    ensures Previous(page) != page <==> page.Num? && page.n > 1
    ensures Previous(page) != page ==> Previous(page) == Num(page.n - 1)
    ensures Next(page, total) != page <==> page.Num? && page.n < total
    ensures Next(page, total) != page ==> Next(page, total) == Num(page.n + 1)
    ensures GoTo(page, total, target) == (if InBounds(target, total) then target else page)
  {
  }

  /** previousPage, nextPage, goToPage and a swipe keep the page in [1, totalPages]. */
  lemma NavigationKeepsBounds(page: JsNum, total: int, target: JsNum, startX: int, endX: int)
    requires InBounds(page, total)
    ensures InBounds(Previous(page), total)
    ensures InBounds(Next(page, total), total)
    ensures InBounds(GoTo(page, total, target), total)
    ensures InBounds(Swipe(page, total, startX, endX), total)
  {
  }

  /** Forward then back returns to the page, away from the last page. */
  lemma NextThenPrevious(page: JsNum, total: int)
    requires InBounds(page, total) && page.n < total
    ensures Previous(Next(page, total)) == page
  {
  }

  /** A swipe of at most 50 does nothing; a longer one to the left is
      nextPage and to the right previousPage. */
  lemma SwipeThresholdRule(page: JsNum, total: int, startX: int, endX: int)
    ensures -50 <= startX - endX <= 50 ==> Swipe(page, total, startX, endX) == page
    ensures startX - endX > 50 ==> Swipe(page, total, startX, endX) == Next(page, total)
    ensures startX - endX < -50 ==> Swipe(page, total, startX, endX) == Previous(page)
  {
  }

  /** Restoring saved progress can leave the bounds: page 1 of 3 restored
      from "7" is page 7, and from "x" it is NaN, from which no navigation
      step moves. */
  lemma RestoreCanBreakBounds()
    ensures InBounds(Num(1), 3)
    ensures Restore(Num(1), Some("7")) == Num(7) && !InBounds(Num(7), 3)
    ensures Restore(Num(1), Some("x")) == NaN && Previous(NaN) == NaN && Next(NaN, 3) == NaN
  {
    assert DigitPrefix("7") == "7" by {
      DigitsThenOther("7", "");
    }
    assert DigitsValue("7") == 7 by {
      assert "7"[..0] == "";
    }
    assert SkipSpace("7") == "7" && SkipSpace("x") == "x";
    assert DigitPrefix("x") == "";
  }

  /** The reader starts on page 1 of 0 pages and nothing assigns totalPages,
      so neither nextPage nor goToPage nor a swipe can move it. */
  lemma InitialReaderCannotAdvance(target: JsNum, startX: int, endX: int)
    ensures Next(Num(1), 0) == Num(1) && GoTo(Num(1), 0, target) == Num(1)
    ensures Previous(Num(1)) == Num(1) && Swipe(Num(1), 0, startX, endX) == Num(1)
  {
  }

  class ComicReader {
    var currentPage: JsNum
    var totalPages: int
    var isFullscreen: bool
    var readerMode: string

    /** The object literal's initial fields. */
    constructor()
      ensures currentPage == Num(1) && totalPages == 0 && !isFullscreen && readerMode == "single"
    {
      currentPage := Num(1);
      totalPages := 0;
      isFullscreen := false;
      readerMode := "single";
    }

    method PreviousPage()
      modifies this
      ensures currentPage == Previous(old(currentPage))
      ensures totalPages == old(totalPages) && isFullscreen == old(isFullscreen) && readerMode == old(readerMode)
    {
      if currentPage.Num? && currentPage.n > 1 {
        currentPage := Num(currentPage.n - 1);
      }
    }

    method NextPage()
      modifies this
      ensures currentPage == Next(old(currentPage), totalPages)
      ensures totalPages == old(totalPages) && isFullscreen == old(isFullscreen) && readerMode == old(readerMode)
    {
      if currentPage.Num? && currentPage.n < totalPages {
        currentPage := Num(currentPage.n + 1);
      }
    }

    method GoToPage(page: JsNum)
      modifies this
      ensures currentPage == GoTo(old(currentPage), totalPages, page)
      ensures totalPages == old(totalPages) && isFullscreen == old(isFullscreen) && readerMode == old(readerMode)
    {
      if page.Num? && page.n >= 1 && page.n <= totalPages {
        currentPage := page;
      }
    }

    method HandleSwipe(startX: int, endX: int)
      modifies this
      ensures currentPage == Swipe(old(currentPage), totalPages, startX, endX)
      ensures totalPages == old(totalPages) && isFullscreen == old(isFullscreen) && readerMode == old(readerMode)
    {
      var swipeThreshold := 50;
      var diff := startX - endX;
      var magnitude := if diff < 0 then -diff else diff;
      if magnitude > swipeThreshold {
        if diff > 0 {
          NextPage();
        } else {
          PreviousPage();
        }
      }
    }

    /** setupProgressTracking() with the stored `comic-progress-{id}` value, if any. */
    method RestoreProgress(saved: Option<string>)
      modifies this
      ensures currentPage == Restore(old(currentPage), saved)
      ensures totalPages == old(totalPages) && isFullscreen == old(isFullscreen) && readerMode == old(readerMode)
    {
      if saved.Some? && saved.value != "" {
        currentPage := ParseInt(saved.value);
      }
    }

    method EnterFullscreen()
      modifies this
      ensures isFullscreen
      ensures currentPage == old(currentPage) && totalPages == old(totalPages) && readerMode == old(readerMode)
    {
      isFullscreen := true;
    }

    method ExitFullscreen()
      modifies this
      ensures !isFullscreen
      ensures currentPage == old(currentPage) && totalPages == old(totalPages) && readerMode == old(readerMode)
    {
      isFullscreen := false;
    }

    method ToggleFullscreen()
      modifies this
      ensures isFullscreen == !old(isFullscreen)
      ensures currentPage == old(currentPage) && totalPages == old(totalPages) && readerMode == old(readerMode)
    {
      if !isFullscreen {
        EnterFullscreen();
      } else {
        ExitFullscreen();
      }
    }

    method SetReaderMode(mode: string)
      modifies this
      ensures readerMode == mode
      ensures currentPage == old(currentPage) && totalPages == old(totalPages) && isFullscreen == old(isFullscreen)
    {
      readerMode := mode;
    }
  }

  // ---------------------------------------------------------------- ComicRating stars

  /** The `active` and `hover` classes of a row of star elements. */
  class Stars {
    const active: array<bool>
    const hover: array<bool>

    ghost predicate Valid()
      reads this
    {
      active != hover && active.Length == hover.Length
    }

    constructor(count: nat)
      ensures Valid() && active.Length == count && fresh(active) && fresh(hover)
      ensures forall i :: 0 <= i < count ==> !active[i] && !hover[i]
    {
      active := new bool[count](_ => false);
      hover := new bool[count](_ => false);
    }

    /** setRating(stars, r): exactly the first r stars are active. */
    method SetRating(rating: int)
      requires Valid()
      modifies active
      ensures forall i :: 0 <= i < active.Length ==> active[i] == (i < rating)
    {
      var index := 0;
      while index < active.Length
        invariant 0 <= index <= active.Length
        invariant forall i :: 0 <= i < index ==> active[i] == (i < rating)
      {
        if index < rating {
          active[index] := true;
        } else {
          active[index] := false;
        }
        index := index + 1;
      }
    }

    /** previewRating(stars, r): exactly the first r stars are hovered. */
    method PreviewRating(rating: int)
      requires Valid()
      modifies hover
      ensures forall i :: 0 <= i < hover.Length ==> hover[i] == (i < rating)
    {
      var index := 0;
      while index < hover.Length
        invariant 0 <= index <= hover.Length
        invariant forall i :: 0 <= i < index ==> hover[i] == (i < rating)
      {
        hover[index] := index < rating;
        index := index + 1;
      }
    }

    /** resetPreview(stars, r): no star is hovered, the first r become active,
        and an active star beyond r stays active (the class is only added).
        The page passes parseInt(input.value), which may be NaN; `index < NaN`
        is false, so a NaN rating acts as 0 here and the caller passes 0 for it. */
    method ResetPreview(currentRating: int)
      requires Valid()
      modifies active, hover
      ensures forall i :: 0 <= i < hover.Length ==> !hover[i]
      ensures forall i :: 0 <= i < active.Length ==> active[i] == (old(active[i]) || i < currentRating)
    {
      var index := 0;
      while index < active.Length
        invariant 0 <= index <= active.Length
        invariant forall i :: 0 <= i < index ==> !hover[i]
        invariant forall i :: 0 <= i < index ==> active[i] == (old(active[i]) || i < currentRating)
        invariant forall i :: index <= i < active.Length ==> active[i] == old(active[i])
      {
        hover[index] := false;
        if index < currentRating {
          active[index] := true;
        }
        index := index + 1;
      }
    }
  }

  // ---------------------------------------------------------------- ComicTheme

  /** The root element's classes after setTheme(theme). */
  function ThemeClasses(classes: set<string>, theme: string): set<string>
  {
    classes - {"light", "dark"} + {theme}
  }

  /** After setTheme the root carries the chosen theme and not the other one,
      and every class that is not a theme is kept. */
  lemma SetThemeExclusive(classes: set<string>, theme: string)
    requires theme == "light" || theme == "dark"
    ensures theme in ThemeClasses(classes, theme)
    ensures (if theme == "light" then "dark" else "light") !in ThemeClasses(classes, theme)
    ensures forall c :: c in classes && c != "light" && c != "dark" ==> c in ThemeClasses(classes, theme)
    ensures forall c :: c in ThemeClasses(classes, theme) && c != theme ==> c in classes && c != "light" && c != "dark"
  {
  }

  /** The toggle button picks the theme the root does not have: it flips whether the root is dark. */
  lemma ToggleFlipsDark(classes: set<string>)
    ensures var theme := if "dark" in classes then "light" else "dark";
      ("dark" in ThemeClasses(classes, theme) <==> "dark" !in classes)
  {
  }

  class ThemeRoot {
    var classes: set<string>
    var storedTheme: Option<string>

    constructor(initial: set<string>)
      ensures classes == initial && storedTheme == None
    {
      classes := initial;
      storedTheme := None;
    }

    /** setTheme(theme): remember the choice and swap the theme class. */
    method SetTheme(theme: string)
      modifies this
      ensures storedTheme == Some(theme)
      ensures classes == ThemeClasses(old(classes), theme)
    {
      storedTheme := Some(theme);
      classes := classes - {"light", "dark"};
      classes := classes + {theme};
    }

    /** The toggle button's click handler. */
    method Toggle()
      modifies this
      ensures storedTheme == Some(if "dark" in old(classes) then "light" else "dark")
      ensures ("dark" in classes) == ("dark" !in old(classes))
    {
      var isDark := "dark" in classes;
      ToggleFlipsDark(classes);
      SetTheme(if isDark then "light" else "dark");
    }
  }
}
