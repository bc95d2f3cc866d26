/**
 * Insertion at an index: insert_at, insert_at_index and the midpoint write
 * take_position_between that places a record between two neighbours.
 */
module Insertion {
  import opened Wrappers
  import opened Store
  import opened Queries
  import opened Moves

  /**
   * take_position_between: write the midpoint of the two neighbours'
   * positions, computed as upper + (lower - upper) / 2. Fails when the two
   * positions are equal, since there is then no room between them.
   */
  function TookPositionBetween(db: Table, item: Id, lower: Id, upper: Id): (r: Result<Table, Error>)
    requires item in db && Positioned(db, lower) && Positioned(db, upper)
    ensures r.Err? <==> Pos(db, lower) == Pos(db, upper)
    ensures r.Err? ==> r.error == NoGap
    ensures r.Ok? ==> OnlyWrote(db, r.value, {item}) && InList(r.value, item)
    ensures r.Ok? && Pos(db, upper) < Pos(db, lower) ==>
              Pos(db, upper) < Pos(r.value, item) < Pos(db, lower)
  {
    var gap := Pos(db, lower) - Pos(db, upper);
    if gap == 0.0 then Err(NoGap)
    else Ok(SetPos(db, item, Some(Pos(db, upper) + gap / 2.0)))
  }

  /** Writing a position strictly between two neighbouring places of the order keeps positions distinct. */
  lemma BetweenKeepsDistinct(db: Table, item: Id, s: ScopeKey, c: int, p: real)
    requires DistinctPositions(db) && item in db && ScopeOf(db, item) == s
    requires 0 < c < |Order(db, s)|
    requires Pos(db, Order(db, s)[c - 1]) < p < Pos(db, Order(db, s)[c])
    ensures DistinctPositions(SetPos(db, item, Some(p)))
  {
    var o := Order(db, s);
    forall j | j in Members(db, s) && j != item ensures Pos(db, j) != p {
      assert j in o;
      var i :| 0 <= i < |o| && o[i] == j;
      if i < c {
        AscendingIndex(db, o, i, c - 1);
      } else {
        AscendingIndex(db, o, c, i);
      }
    }
    WriteKeepsDistinct(db, item, Some(p));
  }

  /**
   * The branch of insert_at_index for a record coming from below the found
   * item `at` (or from outside the list): take the place between `at` and
   * its higher item, or the top when `at` is first.
   */
  function PlacedAbove(db: Table, item: Id, index: int): (r: Result<Table, Error>)
    requires DistinctPositions(db) && item in db
    requires 0 <= index < |Order(db, ScopeOf(db, item))| && Order(db, ScopeOf(db, item))[index] != item
    ensures r.Ok?
    ensures OnlyWrote(db, r.value, {item}) && InList(r.value, item) && DistinctPositions(r.value)
  {
    var s := ScopeOf(db, item);
    var at := Order(db, s)[index];
    assert at in Members(db, s);
    match HigherItem(db, at)
    case None => Ok(AssumedTop(db, item))
    case Some(above) =>
      HigherIsPrevious(db, s, index);
      var r := TookPositionBetween(db, item, at, above);
      BetweenKeepsDistinct(db, item, s, index, Pos(r.value, item));
      r
  }

  /**
   * The branch of insert_at_index for a record coming from above the found
   * item `at`: take the place between `at` and its lower item, or the bottom
   * when `at` is last.
   */
  function PlacedBelow(db: Table, item: Id, index: int): (r: Result<Table, Error>)
    requires DistinctPositions(db) && item in db
    requires 0 <= index < |Order(db, ScopeOf(db, item))| && Order(db, ScopeOf(db, item))[index] != item
    ensures r.Ok?
    ensures OnlyWrote(db, r.value, {item}) && InList(r.value, item) && DistinctPositions(r.value)
  {
    var s := ScopeOf(db, item);
    var at := Order(db, s)[index];
    assert at in Members(db, s);
    match LowerItem(db, at)
    case None => Ok(AssumedBottom(db, item))
    case Some(below) =>
      LowerIsNext(db, s, index);
      var r := TookPositionBetween(db, item, below, at);
      BetweenKeepsDistinct(db, item, s, index + 1, Pos(r.value, item));
      r
  }

  /**
   * insert_at_index: move the record to offset `index` of its list. The item
   * found there, if it is another record, is left above or below the record
   * depending on the side this record comes from; an offset with no record
   * sends the record to the top (offset 0 or less) or to the bottom.
   */
  function InsertedAtIndex(db: Table, item: Id, index: int): (r: Result<Table, Error>)
    requires DistinctPositions(db) && item in db
    ensures r.Ok?
    ensures OnlyWrote(db, r.value, {item}) && InList(r.value, item) && DistinctPositions(r.value)
  {
    var s := ScopeOf(db, item);
    var found := ItemAtIndex(db, s, index);
    if found.None? then
      if index <= 0 then Ok(AssumedTop(db, item)) else Ok(AssumedBottom(db, item))
    else if found.value == item then
      assert item in Members(db, s);
      Ok(db)
    else if !InList(db, item) || Pos(db, item) > Pos(db, found.value) then
      PlacedAbove(db, item, index)
    else
      PlacedBelow(db, item, index)
  }

  /** insert_at: insert at the index counted from the top of the list. */
  function InsertedAt(db: Table, item: Id, index: int, top: int): (r: Result<Table, Error>)
    requires DistinctPositions(db) && item in db
    ensures r.Ok?
    ensures OnlyWrote(db, r.value, {item}) && InList(r.value, item) && DistinctPositions(r.value)
  {
    InsertedAtIndex(db, item, index - top)
  }

  /** `x` limited to the range from `lo` to `hi`. */
  function Clamp(x: int, lo: int, hi: int): (c: int)
    requires lo <= hi
    ensures lo <= c <= hi
    ensures lo <= x <= hi ==> c == x
    ensures x < lo ==> c == lo
    ensures hi < x ==> c == hi
  {
    if x < lo then lo else if hi < x then hi else x
  }

  /** The in-list records of the scope once `item` has been placed in the list by a write of its own. */
  lemma MembersAfterPlacing(db: Table, r: Table, item: Id)
    requires item in db && OnlyWrote(db, r, {item}) && InList(r, item)
    ensures Members(r, ScopeOf(db, item)) == (Members(db, ScopeOf(db, item)) - {item}) + {item}
    ensures |Members(r, ScopeOf(db, item))| == |Members(db, ScopeOf(db, item)) - {item}| + 1
  {
    var s := ScopeOf(db, item);
    forall j ensures j in Members(r, s) <==> j in (Members(db, s) - {item}) + {item} {
      if j in db && j != item {
        assert r[j] == db[j];
      }
    }
  }

  /** After a write placing `item` only, its index counts the other records positioned before it. */
  lemma RankAfterPlacing(db: Table, r: Table, item: Id)
    requires DistinctPositions(db) && DistinctPositions(r) && item in db
    requires OnlyWrote(db, r, {item}) && InList(r, item)
    ensures IndexInList(r, item, 0).value ==
            |Below(db, Members(db, ScopeOf(db, item)) - {item}, Pos(r, item))|
  {
    var s := ScopeOf(db, item);
    var p := Pos(r, item);
    IndexCountsHigher(r, item, 0);
    MembersAfterPlacing(db, r, item);
    forall j ensures j in Below(r, Members(r, s), p) <==> j in Below(db, Members(db, s) - {item}, p) {
      if j in db && j != item {
        assert r[j] == db[j];
      }
    }
    assert Below(r, Members(r, s), p) == Below(db, Members(db, s) - {item}, p);
  }

  /** A record that took the top by its own write has index 0. */
  lemma TopIndex(db: Table, r: Table, item: Id)
    requires DistinctPositions(db) && DistinctPositions(r) && item in db
    requires OnlyWrote(db, r, {item}) && InList(r, item)
    requires forall k | k in Members(r, ScopeOf(r, item)) && k != item :: Pos(r, item) < Pos(r, k)
    ensures HasIndex(r, item, 0, 0)
  {
    FirstIffIndexTop(r, item, 0);
  }

  /** A record that took the bottom by its own write has as index the number of other records in the list. */
  lemma BottomIndex(db: Table, r: Table, item: Id)
    requires DistinctPositions(db) && DistinctPositions(r) && item in db
    requires OnlyWrote(db, r, {item}) && InList(r, item)
    requires forall k | k in Members(r, ScopeOf(r, item)) && k != item :: Pos(r, k) < Pos(r, item)
    ensures HasIndex(r, item, 0, |Members(db, ScopeOf(db, item)) - {item}|)
  {
    LastIffIndexBottom(r, item, 0);
    MembersAfterPlacing(db, r, item);
  }

  /** A record placed strictly between places `c - 1` and `c` of the order has index `c`, less one if it was itself before that. */
  lemma BetweenIndex(db: Table, r: Table, item: Id, c: int)
    requires DistinctPositions(db) && DistinctPositions(r) && item in db
    requires OnlyWrote(db, r, {item}) && InList(r, item)
    requires 0 < c < |Order(db, ScopeOf(db, item))|
    requires Pos(db, Order(db, ScopeOf(db, item))[c - 1]) < Pos(r, item) < Pos(db, Order(db, ScopeOf(db, item))[c])
    ensures HasIndex(r, item, 0, c - (if InList(db, item) && Pos(db, item) < Pos(r, item) then 1 else 0))
  {
    var s := ScopeOf(db, item);
    RankAfterPlacing(db, r, item);
    BelowBetween(db, Members(db, s), Order(db, s), c, Pos(r, item));
    BelowWithout(db, Members(db, s), Pos(r, item), item);
  }

  /** A record coming from below `Order[index]` (or from outside the list) lands at offset `index`. */
  lemma PlacedAboveIndex(db: Table, item: Id, index: int)
    requires DistinctPositions(db) && item in db
    requires 0 <= index < |Order(db, ScopeOf(db, item))| && Order(db, ScopeOf(db, item))[index] != item
    requires InList(db, item) ==> Pos(db, Order(db, ScopeOf(db, item))[index]) < Pos(db, item)
    ensures HasIndex(PlacedAbove(db, item, index).value, item, 0, index)
  {
    var s := ScopeOf(db, item);
    var r := PlacedAbove(db, item, index).value;
    HigherExistsInOrder(db, s, index);
    if index == 0 {
      TopIndex(db, r, item);
    } else {
      HigherIsPrevious(db, s, index);
      BetweenIndex(db, r, item, index);
    }
  }

  /** A record coming from above `Order[index]` lands at offset `index`. */
  lemma PlacedBelowIndex(db: Table, item: Id, index: int)
    requires DistinctPositions(db) && item in db && InList(db, item)
    requires 0 <= index < |Order(db, ScopeOf(db, item))| && Order(db, ScopeOf(db, item))[index] != item
    requires Pos(db, item) < Pos(db, Order(db, ScopeOf(db, item))[index])
    ensures HasIndex(PlacedBelow(db, item, index).value, item, 0, index)
  {
    var s := ScopeOf(db, item);
    LowerExistsInOrder(db, s, index);
    if index == |Order(db, s)| - 1 {
      PlacedAtBottomIndex(db, item, index);
    } else {
      LowerIsNext(db, s, index);
      var r := PlacedBelow(db, item, index).value;
      assert Pos(db, item) < Pos(r, item);
      BetweenIndex(db, r, item, index + 1);
    }
  }

  /** The bottom case of `PlacedBelowIndex`: the found item is last. */
  lemma PlacedAtBottomIndex(db: Table, item: Id, index: int)
    requires DistinctPositions(db) && item in db && InList(db, item)
    requires index == |Order(db, ScopeOf(db, item))| - 1 && LowerItem(db, Order(db, ScopeOf(db, item))[index]).None?
    requires Order(db, ScopeOf(db, item))[index] != item
    ensures HasIndex(PlacedBelow(db, item, index).value, item, 0, index)
  {
    var s := ScopeOf(db, item);
    var r := AssumedBottom(db, item);
    assert item in Members(db, s);
    assert |Members(db, s) - {item}| == |Members(db, s)| - 1;
    BottomIndex(db, r, item);
  }

  /** The number of other records in the record's list, against the length of the list's order. */
  lemma OthersCount(db: Table, item: Id)
    requires DistinctPositions(db) && item in db
    ensures |Order(db, ScopeOf(db, item))| - 1 <= |Members(db, ScopeOf(db, item)) - {item}| <= |Order(db, ScopeOf(db, item))|
    ensures InList(db, item) ==> |Members(db, ScopeOf(db, item)) - {item}| == |Order(db, ScopeOf(db, item))| - 1
  {
    var S := Members(db, ScopeOf(db, item));
    if item in S {
      assert |S - {item}| == |S| - 1;
    } else {
      assert S - {item} == S;
    }
  }

  /** The case of `InsertAtIndexPlaces` where no record sits at the offset. */
  lemma NotFoundIndex(db: Table, item: Id, index: int)
    requires DistinctPositions(db) && item in db && ItemAtIndex(db, ScopeOf(db, item), index).None?
    ensures HasIndex(InsertedAtIndex(db, item, index).value, item, 0,
                     Clamp(index, 0, |Members(db, ScopeOf(db, item)) - {item}|))
  {
    OthersCount(db, item);
    if index <= 0 {
      TopIndex(db, AssumedTop(db, item), item);
    } else {
      BottomIndex(db, AssumedBottom(db, item), item);
    }
  }

  /** The case of `InsertAtIndexPlaces` where another record sits at the offset. */
  lemma FoundOtherIndex(db: Table, item: Id, index: int)
    requires DistinctPositions(db) && item in db
    requires ItemAtIndex(db, ScopeOf(db, item), index).Some? && ItemAtIndex(db, ScopeOf(db, item), index).value != item
    ensures HasIndex(InsertedAtIndex(db, item, index).value, item, 0,
                     Clamp(index, 0, |Members(db, ScopeOf(db, item)) - {item}|))
  {
    var s := ScopeOf(db, item);
    var at := ItemAtIndex(db, s, index).value;
    OthersCount(db, item);
    if !InList(db, item) || Pos(db, item) > Pos(db, at) {
      PlacedAboveIndex(db, item, index);
    } else {
      assert item in Members(db, s) && at in Members(db, s);
      PlacedBelowIndex(db, item, index);
    }
  }

  /**
   * insert_at_index leaves the record at offset `index` clamped to the list
   * the other records form: 0 for an offset at or above the top, the
   * number of other records for an offset past the bottom.
   */
  lemma InsertAtIndexPlaces(db: Table, item: Id, index: int)
    requires DistinctPositions(db) && item in db
    ensures HasIndex(InsertedAtIndex(db, item, index).value, item, 0,
                     Clamp(index, 0, |Members(db, ScopeOf(db, item)) - {item}|))
  {
    var s := ScopeOf(db, item);
    var found := ItemAtIndex(db, s, index);
    if found.None? {
      NotFoundIndex(db, item, index);
    } else if found.value == item {
      OthersCount(db, item);
      IndexItemRoundTrip(db, item, 0, index);
    } else {
      FoundOtherIndex(db, item, index);
    }
  }

  /** An index counted from `top` is the offset from the top plus `top`. */
  lemma IndexFromTop(db: Table, item: Id, top: int, n: int)
    requires DistinctPositions(db) && item in db && HasIndex(db, item, 0, n)
    ensures HasIndex(db, item, top, top + n)
  {
  }

  /** insert_at leaves the record at the requested index, limited to the range the list allows. */
  lemma InsertAtPlaces(db: Table, item: Id, index: int, top: int)
    requires DistinctPositions(db) && item in db
    ensures HasIndex(InsertedAt(db, item, index, top).value, item, top,
                     top + Clamp(index - top, 0, |Members(db, ScopeOf(db, item)) - {item}|))
  {
    var n := Clamp(index - top, 0, |Members(db, ScopeOf(db, item)) - {item}|);
    var r := InsertedAtIndex(db, item, index - top).value;
    InsertAtIndexPlaces(db, item, index - top);
    assert InsertedAt(db, item, index, top).value == r;
    IndexFromTop(r, item, top, n);
  }
}
