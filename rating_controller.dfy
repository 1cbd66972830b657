/** RatingController::store (app/Http/Controllers/RatingController.php): the
    ratings table as rows keyed by (user, comic), written with updateOrCreate. */
module RatingController {
  import opened Text
  import opened Catalog

  datatype Rating = Rating(userId: nat, comicId: nat, rating: int)

  function RatingKeyIs(userId: nat, comicId: nat): Rating -> bool
  {
    (r: Rating) => r.userId == userId && r.comicId == comicId
  }

  /** The rating the table holds for (user, comic): the first row of that key. */
  function Lookup(rows: seq<Rating>, userId: nat, comicId: nat): Option<int>
  {
    match FirstWhere(rows, RatingKeyIs(userId, comicId))
    case None => None
    case Some(i) => Some(rows[i].rating)
  }

  ghost predicate UniqueKeys(rows: seq<Rating>)
  {
    forall i, j :: 0 <= i < j < |rows| ==> !(rows[i].userId == rows[j].userId && rows[i].comicId == rows[j].comicId)
  }

  /** `Rating::updateOrCreate(['user_id' => u, 'comic_id' => c], ['rating' => v])`:
      update the first row of the key, or insert one. */
  function Rated(rows: seq<Rating>, userId: nat, comicId: nat, value: int): seq<Rating>
  {
    match FirstWhere(rows, RatingKeyIs(userId, comicId))
    case Some(i) => rows[i := rows[i].(rating := value)]
    case None => rows + [Rating(userId, comicId, value)]
  }

  // ---------------------------------------------------------------- properties

  /** Rows keep their keys; only their ratings may change. */
  lemma RatedKeepsKeys(rows: seq<Rating>, userId: nat, comicId: nat, value: int)
    ensures var r := Rated(rows, userId, comicId, value);
      |r| >= |rows| &&
      forall j :: 0 <= j < |rows| ==> r[j].userId == rows[j].userId && r[j].comicId == rows[j].comicId
  {
  }

  /** After store the key reads back the stored rating. */
  lemma StoreThenLookup(rows: seq<Rating>, userId: nat, comicId: nat, value: int)
    ensures Lookup(Rated(rows, userId, comicId, value), userId, comicId) == Some(value)
  {
    var p := RatingKeyIs(userId, comicId);
    var r := Rated(rows, userId, comicId, value);
    match FirstWhere(rows, p)
    case Some(i) =>
      FirstWhereSame(rows, r, p, p);
    case None =>
      FirstWhereAppend(rows, Rating(userId, comicId, value), p);
  }

  /** Every other key reads back what it read before. */
  lemma StoreKeepsOthers(rows: seq<Rating>, userId: nat, comicId: nat, value: int, u: nat, c: nat)
    requires (u, c) != (userId, comicId)
    ensures Lookup(Rated(rows, userId, comicId, value), u, c) == Lookup(rows, u, c)
  {
    var p := RatingKeyIs(userId, comicId);
    var q := RatingKeyIs(u, c);
    var r := Rated(rows, userId, comicId, value);
    match FirstWhere(rows, p)
    case Some(i) =>
      FirstWhereSame(rows, r, q, q);
    case None =>
      FirstWhereAppend(rows, Rating(userId, comicId, value), q);
  }

  /** The table never gets a second row for a key. */
  lemma StoreKeepsKeysUnique(rows: seq<Rating>, userId: nat, comicId: nat, value: int)
    requires UniqueKeys(rows)
    ensures UniqueKeys(Rated(rows, userId, comicId, value))
  {
    var p := RatingKeyIs(userId, comicId);
    if FirstWhere(rows, p).None? {
      var r := Rated(rows, userId, comicId, value);
      forall i, j | 0 <= i < j < |r|
        ensures !(r[i].userId == r[j].userId && r[i].comicId == r[j].comicId)
      {
        if j == |rows| {
          assert !p(rows[i]);
        }
      }
    }
  }

  /** Re-rating overwrites: the last value written is the one kept. */
  lemma LastWriteWins(rows: seq<Rating>, userId: nat, comicId: nat, v1: int, v2: int)
    ensures Rated(Rated(rows, userId, comicId, v1), userId, comicId, v2) == Rated(rows, userId, comicId, v2)
  {
    var p := RatingKeyIs(userId, comicId);
    var r := Rated(rows, userId, comicId, v1);
    match FirstWhere(rows, p)
    case Some(i) =>
      FirstWhereSame(rows, r, p, p);
    case None =>
      FirstWhereAppend(rows, Rating(userId, comicId, v1), p);
  }

  /** Storing the same rating twice is storing it once. */
  lemma StoreIdempotent(rows: seq<Rating>, userId: nat, comicId: nat, value: int)
    ensures Rated(Rated(rows, userId, comicId, value), userId, comicId, value) == Rated(rows, userId, comicId, value)
  {
    LastWriteWins(rows, userId, comicId, value, value);
  }

  // ---------------------------------------------------------------- the table

  class RatingTable {
    var rows: seq<Rating>

    ghost predicate Valid()
      reads this
    {
      UniqueKeys(rows)
    }

    constructor()
      ensures rows == [] && Valid()
    {
      rows := [];
    }

    /** store(): the authenticated user's rating of `comicId`. */
    method Store(userId: nat, comicId: nat, value: int)
      requires Valid()
      modifies this
      ensures Valid()
      ensures rows == Rated(old(rows), userId, comicId, value)
      ensures Lookup(rows, userId, comicId) == Some(value)
    {
      StoreKeepsKeysUnique(rows, userId, comicId, value);
      StoreThenLookup(rows, userId, comicId, value);
      var existing := FirstWhere(rows, RatingKeyIs(userId, comicId));
      if existing.Some? {
        rows := rows[existing.value := rows[existing.value].(rating := value)];
      } else {
        rows := rows + [Rating(userId, comicId, value)];
      }
    }
  }
}
