/** BookmarkController (app/Http/Controllers/BookmarkController.php): the
    bookmarks table as rows of (user, comic), where `store` is a firstOrCreate
    on the pair and `destroy` deletes every row of the pair. */
module BookmarkController {
  import opened Seqs

  datatype Bookmark = Bookmark(userId: nat, comicId: nat)

  /** Every (user, comic) pair has at most one row. */
  ghost predicate Unique(rows: seq<Bookmark>)
  {
    forall b :: multiset(rows)[b] <= 1
  }

  /** `$user->bookmarks()->firstOrCreate(['comic_id' => ...])`. */
  function Stored(rows: seq<Bookmark>, b: Bookmark): seq<Bookmark>
  {
    if b in rows then rows else rows + [b]
  }

  /** `$user->bookmarks()->where('comic_id', ...)->delete()`. */
  function Destroyed(rows: seq<Bookmark>, b: Bookmark): seq<Bookmark>
  {
    Filter(rows, (x: Bookmark) => x != b)
  }

  // ---------------------------------------------------------------- Filter on row counts

  lemma {:induction false} FilterCount(rows: seq<Bookmark>, p: Bookmark -> bool, x: Bookmark)
    ensures multiset(Filter(rows, p))[x] == if p(x) then multiset(rows)[x] else 0
    decreases |rows|
  {
    if rows != [] {
      var init := rows[..|rows| - 1];
      FilterCount(init, p, x);
      assert rows == init + [rows[|rows| - 1]];
    }
  }

  lemma {:induction false} FilterKeepsAll(rows: seq<Bookmark>, p: Bookmark -> bool)
    requires forall x :: x in rows ==> p(x)
    ensures Filter(rows, p) == rows
    decreases |rows|
  {
    if rows != [] {
      var init := rows[..|rows| - 1];
      assert rows == init + [rows[|rows| - 1]];
      FilterKeepsAll(init, p);
    }
  }

  // ---------------------------------------------------------------- properties

  /** After store the pair has exactly one row, whether or not it had one,
      and every other pair keeps its rows. */
  lemma StoreLeavesOne(rows: seq<Bookmark>, b: Bookmark)
    requires Unique(rows)
    ensures multiset(Stored(rows, b))[b] == 1
    ensures forall x :: x != b ==> multiset(Stored(rows, b))[x] == multiset(rows)[x]
    ensures Unique(Stored(rows, b))
  {
    if b !in rows {
      assert multiset(rows + [b]) == multiset(rows) + multiset{b};
    }
  }

  /** Storing twice is storing once. */
  lemma StoreTwiceIsOnce(rows: seq<Bookmark>, b: Bookmark)
    ensures Stored(Stored(rows, b), b) == Stored(rows, b)
  {
    assert b in Stored(rows, b) by {
      if b !in rows {
        assert (rows + [b])[|rows|] == b;
      }
    }
  }

  /** After destroy no row of the pair remains, and every other pair keeps
      its rows. */
  lemma DestroyRemovesPair(rows: seq<Bookmark>, b: Bookmark)
    requires Unique(rows)
    ensures b !in Destroyed(rows, b)
    ensures forall x :: x != b ==> multiset(Destroyed(rows, b))[x] == multiset(rows)[x]
    ensures Unique(Destroyed(rows, b))
  {
    var p := (x: Bookmark) => x != b;
    FilterCount(rows, p, b);
    forall x ensures multiset(Destroyed(rows, b))[x] == if x != b then multiset(rows)[x] else 0 {
      FilterCount(rows, p, x);
    }
  }

  /** Destroying an absent bookmark leaves the table as it was. */
  lemma DestroyAbsentIsNoop(rows: seq<Bookmark>, b: Bookmark)
    requires b !in rows
    ensures Destroyed(rows, b) == rows
  {
    FilterKeepsAll(rows, (x: Bookmark) => x != b);
  }

  // ---------------------------------------------------------------- the table

  class BookmarkTable {
    var rows: seq<Bookmark>

    ghost predicate Valid()
      reads this
    {
      Unique(rows)
    }

    constructor()
      ensures rows == [] && Valid()
    {
      rows := [];
    }

    /** store(): bookmark `comicId` for the authenticated user. */
    method Store(userId: nat, comicId: nat)
      requires Valid()
      modifies this
      ensures Valid()
      ensures rows == Stored(old(rows), Bookmark(userId, comicId))
    {
      var b := Bookmark(userId, comicId);
      StoreLeavesOne(rows, b);
      if b !in rows {
        rows := rows + [b];
      }
    }

    /** destroy(): remove the authenticated user's bookmark of `comicId`. */
    method Destroy(userId: nat, comicId: nat)
      requires Valid()
      modifies this
      ensures Valid()
      ensures rows == Destroyed(old(rows), Bookmark(userId, comicId))
    {
      DestroyRemovesPair(rows, Bookmark(userId, comicId));
      rows := Destroyed(rows, Bookmark(userId, comicId));
    }
  }
}
