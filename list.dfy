/**
 * The list engine as the records see it: a table of rows whose position
 * column the instance methods of acts_as_list update in place, step by step
 * as the library does, each method proved to leave the table its
 * specification function describes.
 */
module ActsAsList {
  import opened Wrappers
  import opened Store
  import opened Queries
  import opened Moves
  import opened Insertion
  import opened Callbacks
  import opened BulkReorder

  /** The records of one model class that acts as a list, with its configuration. */
  class List {
    var rows: Table
    const top: int            // top_of_list, 1 unless configured otherwise
    const addNewAt: NewItems  // add_new_at, :bottom unless configured otherwise

    /** No two records of a scope share a position. */
    ghost predicate Valid()
      reads this
    {
      DistinctPositions(rows)
    }

    constructor (initial: Table, top: int, addNewAt: NewItems)
      requires DistinctPositions(initial)
      ensures Valid() && rows == initial && this.top == top && this.addNewAt == addNewAt
    {
      rows := initial;
      this.top := top;
      this.addNewAt := addNewAt;
    }

    /** set_list_position: write the position column of one record. */
    method SetListPosition(item: Id, p: Option<real>)
      requires item in rows
      modifies this
      ensures rows == SetPos(old(rows), item, p)
    {
      rows := rows[item := Row(rows[item].scope, p)];
    }

    /** swap_positions_with: take the other record's position, then give it ours. */
    method SwapPositionsWith(item: Id, other: Id)
      requires item in rows && other in rows
      modifies this
      ensures rows == Swapped(old(rows), item, other)
    {
      var oldPosition := rows[item].pos;
      SetListPosition(item, rows[other].pos);
      SetListPosition(other, oldPosition);
    }

    /** move_lower: swap with the lower item, when there is one. */
    method MoveLower(item: Id)
      requires Valid() && item in rows
      modifies this
      ensures Valid() && rows == MovedLower(old(rows), item)
    {
      var lower := LowerItem(rows, item);
      if lower.Some? {
        SwapKeepsDistinct(rows, item, lower.value);
        SwapPositionsWith(item, lower.value);
      }
    }

    /** move_higher: swap with the higher item, when there is one. */
    method MoveHigher(item: Id)
      requires Valid() && item in rows
      modifies this
      ensures Valid() && rows == MovedHigher(old(rows), item)
    {
      var higher := HigherItem(rows, item);
      if higher.Some? {
        SwapKeepsDistinct(rows, item, higher.value);
        SwapPositionsWith(item, higher.value);
      }
    }

    /** assume_bottom_position: go after every other record of the list. */
    method AssumeBottomPosition(item: Id)
      requires Valid() && item in rows
      modifies this
      ensures Valid() && rows == AssumedBottom(old(rows), item)
    {
      ghost var before := rows;
      var priorBottom := BottomPosition(rows, ScopeOf(rows, item), Some(item));
      var current := rows[item].pos;
      if priorBottom.None? {
        SetListPosition(item, Some(0.0));
      } else if current.None? || priorBottom.value > current.value {
        SetListPosition(item, Some(priorBottom.value + 1.0));
      }
      assert rows == AssumedBottom(before, item);
    }

    /** assume_top_position: go before every other record of the list. */
    method AssumeTopPosition(item: Id)
      requires Valid() && item in rows
      modifies this
      ensures Valid() && rows == AssumedTop(old(rows), item)
    {
      ghost var before := rows;
      var priorTop := TopPosition(rows, ScopeOf(rows, item), Some(item));
      var current := rows[item].pos;
      if priorTop.None? {
        SetListPosition(item, Some(0.0));
      } else if current.None? || priorTop.value < current.value {
        SetListPosition(item, Some(priorTop.value - 1.0));
      }
      assert rows == AssumedTop(before, item);
    }

    /** move_to_bottom: assume the bottom position, for a record in the list. */
    method MoveToBottom(item: Id)
      requires Valid() && item in rows
      modifies this
      ensures Valid() && rows == MovedToBottom(old(rows), item)
    {
      if InList(rows, item) {
        AssumeBottomPosition(item);
      }
    }

    /** move_to_top: assume the top position, for a record in the list. */
    method MoveToTop(item: Id)
      requires Valid() && item in rows
      modifies this
      ensures Valid() && rows == MovedToTop(old(rows), item)
    {
      if InList(rows, item) {
        AssumeTopPosition(item);
      }
    }

    /** remove_from_list: clear the position of a record in the list. */
    method RemoveFromList(item: Id)
      requires Valid() && item in rows
      modifies this
      ensures Valid() && rows == Removed(old(rows), item)
    {
      if InList(rows, item) {
        SetListPosition(item, None);
      }
      WriteKeepsDistinct(old(rows), item, None);
    }

    /** add_to_list_top: the position before the smallest of the list, or 0. */
    method AddToListTop(item: Id)
      requires Valid() && item in rows
      modifies this
      ensures Valid() && rows == AddedToTop(old(rows), item)
    {
      var priorTop := TopPosition(rows, ScopeOf(rows, item), Some(item));
      if priorTop.Some? {
        SetListPosition(item, Some(priorTop.value - 1.0));
      } else {
        SetListPosition(item, Some(0.0));
      }
    }

    /** add_to_list_bottom: the position after the largest of the list, or 0. */
    method AddToListBottom(item: Id)
      requires Valid() && item in rows
      modifies this
      ensures Valid() && rows == AddedToBottom(old(rows), item)
    {
      var priorBottom := BottomPosition(rows, ScopeOf(rows, item), Some(item));
      if priorBottom.Some? {
        SetListPosition(item, Some(priorBottom.value + 1.0));
      } else {
        SetListPosition(item, Some(0.0));
      }
    }

    /**
     * take_position_between: the midpoint of the two neighbours' positions;
     * reports NoGap, writing nothing, when they hold the same position.
     */
    method TakePositionBetween(item: Id, lower: Id, upper: Id) returns (err: Option<Error>)
      requires item in rows && Positioned(rows, lower) && Positioned(rows, upper)
      modifies this
      ensures err.Some? <==> TookPositionBetween(old(rows), item, lower, upper).Err?
      ensures err.Some? ==> err.value == NoGap && rows == old(rows)
      ensures err.None? ==> rows == TookPositionBetween(old(rows), item, lower, upper).value
    {
      var gap := Pos(rows, lower) - Pos(rows, upper);
      if gap == 0.0 {
        return Some(NoGap);
      }
      SetListPosition(item, Some(Pos(rows, upper) + gap / 2.0));
      return None;
    }

    /**
     * insert_at_index: place the record at an offset of its list, next to
     * the record found there on the side it comes from.
     */
    method InsertAtIndex(item: Id, index: int)
      requires Valid() && item in rows
      modifies this
      ensures Valid() && rows == InsertedAtIndex(old(rows), item, index).value
    {
      ghost var before := rows;
      var s := ScopeOf(rows, item);
      var oldItem := ItemAtIndex(rows, s, index);
      if oldItem.None? {
        if index <= 0 {
          AssumeTopPosition(item);
        } else {
          AssumeBottomPosition(item);
        }
      } else if oldItem.value != item {
        PlaceNextTo(item, index);
      }
      assert rows == InsertedAtIndex(before, item, index).value;
    }

    /**
     * insert_at_index when another record sits at `index`: the record keeps
     * to the side it comes from.
     */
    method PlaceNextTo(item: Id, index: int)
      requires Valid() && item in rows
      requires ItemAtIndex(rows, ScopeOf(rows, item), index).Some?
      requires ItemAtIndex(rows, ScopeOf(rows, item), index).value != item
      modifies this
      ensures Valid() && rows == InsertedAtIndex(old(rows), item, index).value
    {
      ghost var before := rows;
      var s := ScopeOf(rows, item);
      var at := ItemAtIndex(rows, s, index).value;
      assert at == Order(rows, s)[index];
      if !InList(rows, item) || Pos(rows, item) > Pos(rows, at) {
        assert InsertedAtIndex(before, item, index) == PlacedAbove(before, item, index);
        PlaceAbove(item, index);
      } else {
        assert at in Members(rows, s) && item in Members(rows, s);
        assert InsertedAtIndex(before, item, index) == PlacedBelow(before, item, index);
        PlaceBelow(item, index);
      }
    }

    /**
     * The branch of insert_at_index for a record coming from below the item
     * at `index`: between it and its higher item, or at the top.
     */
    method PlaceAbove(item: Id, index: int)
      requires Valid() && item in rows
      requires 0 <= index < |Order(rows, ScopeOf(rows, item))| && Order(rows, ScopeOf(rows, item))[index] != item
      modifies this
      ensures Valid() && rows == PlacedAbove(old(rows), item, index).value
    {
      ghost var before := rows;
      var s := ScopeOf(rows, item);
      var at := Order(rows, s)[index];
      assert at in Members(rows, s);
      var above := HigherItem(rows, at);
      if above.None? {
        assert PlacedAbove(before, item, index) == Ok(AssumedTop(before, item));
        AssumeTopPosition(item);
      } else {
        HigherIsPrevious(rows, s, index);
        assert PlacedAbove(before, item, index) == TookPositionBetween(before, item, at, above.value);
        var err := TakePositionBetween(item, at, above.value);
      }
      assert rows == PlacedAbove(before, item, index).value;
    }

    /**
     * The branch of insert_at_index for a record coming from above the item
     * at `index`: between it and its lower item, or at the bottom.
     */
    method PlaceBelow(item: Id, index: int)
      requires Valid() && item in rows
      requires 0 <= index < |Order(rows, ScopeOf(rows, item))| && Order(rows, ScopeOf(rows, item))[index] != item
      modifies this
      ensures Valid() && rows == PlacedBelow(old(rows), item, index).value
    {
      ghost var before := rows;
      var s := ScopeOf(rows, item);
      var at := Order(rows, s)[index];
      assert at in Members(rows, s);
      var below := LowerItem(rows, at);
      if below.None? {
        assert PlacedBelow(before, item, index).value == AssumedBottom(before, item);
        AssumeBottomPosition(item);
      } else {
        LowerIsNext(rows, s, index);
        assert PlacedBelow(before, item, index).value == TookPositionBetween(before, item, below.value, at).value;
        var err := TakePositionBetween(item, below.value, at);
      }
      assert rows == PlacedBelow(before, item, index).value;
    }

    /** insert_at: insert at an index counted from the top of the list. */
    method InsertAt(item: Id, index: int)
      requires Valid() && item in rows
      modifies this
      ensures Valid() && rows == InsertedAt(old(rows), item, index, top).value
    {
      ghost var before := rows;
      InsertAtIndex(item, index - top);
      assert InsertedAt(before, item, index, top).value == InsertedAtIndex(before, item, index - top).value;
    }

    /**
     * check_scope, run when a record is saved with the scope key `newScope`:
     * a changed scope re-adds the record at the configured edge of the new
     * list. With add_new_at nil the save fails and nothing is written.
     */
    method CheckScope(item: Id, newScope: ScopeKey) returns (err: Option<Error>)
      requires Valid() && item in rows
      modifies this
      ensures Valid()
      ensures err.Some? <==> ScopeChanged(old(rows), item, newScope, addNewAt).Err?
      ensures err.Some? ==> err.value == NoAddToListMethod && rows == old(rows)
      ensures err.None? ==> rows == ScopeChanged(old(rows), item, newScope, addNewAt).value
    {
      ghost var before := rows;
      if rows[item].scope == newScope {
        return None;
      }
      if addNewAt == Nowhere {
        return Some(NoAddToListMethod);
      }
      Relocated(rows, item, Row(newScope, None), newScope);
      rows := rows[item := Row(newScope, None)];
      if addNewAt == AtTop {
        AddToListTop(item);
      } else {
        AddToListBottom(item);
      }
      assert rows == ScopeChanged(before, item, newScope, addNewAt).value;
      return None;
    }

    /**
     * Saving a new record: the before_create callback adds it at the
     * configured edge when it comes without a position.
     */
    method Create(item: Id, row: Row)
      requires Valid() && item !in rows
      requires row.pos.Some? ==> forall k | k in Members(rows, row.scope) :: Pos(rows, k) != row.pos.value
      modifies this
      ensures Valid() && rows == Created(old(rows), item, row, addNewAt)
    {
      ghost var before := rows;
      Relocated(rows, item, row, row.scope);
      rows := rows[item := row];
      if row.pos.None? && addNewAt == AtTop {
        AddToListTop(item);
      } else if row.pos.None? && addNewAt == AtBottom {
        AddToListBottom(item);
      }
      assert rows == Created(before, item, row, addNewAt);
    }

    /** The transaction of update_ordered_list: write each planned position, one record at a time. */
    method ApplyUpdates(updated: map<Id, real>)
      requires forall k | k in updated :: k in rows
      modifies this
      ensures rows == Applied(old(rows), updated)
    {
      ghost var before := rows;
      var todo := updated.Keys;
      while todo != {}
        invariant todo <= updated.Keys
        invariant forall k :: k in rows <==> k in before
        invariant forall k | k in before :: rows[k] ==
                    if k in updated && k !in todo then Row(before[k].scope, Some(updated[k])) else before[k]
        decreases |todo|
      {
        Pick(todo);
        var id :| id in todo;
        SetListPosition(id, Some(updated[id]));
        todo := todo - {id};
      }
      var applied := Applied(before, updated);
      assert forall k :: k in rows <==> k in applied;
      forall k | k in before ensures rows[k] == applied[k] {
        if k in updated {
          assert rows[k] == Row(before[k].scope, Some(updated[k]));
        }
      }
      assert rows == applied;
    }

    /**
     * update_ordered_list: reorder scope `s` as requested. The request is
     * sanitised against the current order, the positions to write are
     * planned slot by slot, and the writes are applied one record at a time.
     * Returns the sanitised request, which is the scope's new order.
     */
    method UpdateOrderedList(s: ScopeKey, newIds: seq<Id>) returns (res: seq<Id>)
      requires Valid() && AllInList(rows, s)
      modifies this
      ensures Valid()
      ensures res == Sanitized(newIds, Order(old(rows), s))
      ensures Order(rows, s) == res
      ensures rows.Keys == old(rows).Keys
      ensures ScopePositions(rows, s) == ScopePositions(old(rows), s)
      ensures forall k | k in old(rows) && old(rows)[k].scope != s :: k in rows && rows[k] == old(rows)[k]
    {
      ghost var before := rows;
      var currentIds := Order(rows, s);
      ListsCard(rows, Members(rows, s), currentIds);
      SanitizedPermutes(newIds, currentIds);
      res := Sanitized(newIds, currentIds);
      var updated := PlanUpdates(rows, res, currentIds);
      PlanInScope(before, s, res, updated);
      ApplyUpdates(updated);
      ZipWriteSortsRequested(before, s, res, updated);
    }
  }
}
