/**
 * The read-only queries of one record against its list: the top and bottom
 * position, the neighbouring items, the index, first?/last? and the item
 * found at an index of the ordered list.
 *
 * A record's scope is its row's scope key; the list of a scope is the set
 * of its records that have a position, ordered by ascending position.
 */
module Queries {
  import opened Wrappers
  import opened Store

  function ScopeOf(db: Table, item: Id): ScopeKey
    requires item in db
  {
    db[item].scope
  }

  /** in_list?: the record has a position. */
  predicate InList(db: Table, item: Id)
    requires item in db
  {
    db[item].pos.Some?
  }

  function Excluding(S: set<Id>, except: Option<Id>): (r: set<Id>)
    ensures forall k | k in S :: k in r <==> Some(k) != except
    ensures forall k | k in r :: k in S
  {
    if except.Some? then S - {except.value} else S
  }

  /** The list of scope `s` in ascending position order. */
  function Order(db: Table, s: ScopeKey): (o: seq<Id>)
    requires DistinctPositions(db)
    ensures |o| == |Members(db, s)| && Lists(o, Members(db, s)) && Ascending(db, o)
  {
    MembersRanked(db, s);
    SortByPos(db, Members(db, s))
  }

  /**
   * top_position_in_list(except): the smallest position in scope `s`,
   * leaving out the record `except`; None when no other record is in the list.
   */
  function TopPosition(db: Table, s: ScopeKey, except: Option<Id>): (r: Option<real>)
    requires DistinctPositions(db)
    ensures r.None? <==> forall k | k in Members(db, s) :: Some(k) == except
    ensures r.Some? ==> exists k | k in Members(db, s) && Some(k) != except :: Pos(db, k) == r.value
    ensures r.Some? ==> forall k | k in Members(db, s) && Some(k) != except :: r.value <= Pos(db, k)
  {
    MembersRanked(db, s);
    var c := Excluding(Members(db, s), except);
    if c == {} then None
    else
      var m := ArgMin(db, c);
      Some(Pos(db, m))
  }

  /** bottom_position_in_list(except): the largest position, as above. */
  function BottomPosition(db: Table, s: ScopeKey, except: Option<Id>): (r: Option<real>)
    requires DistinctPositions(db)
    ensures r.None? <==> forall k | k in Members(db, s) :: Some(k) == except
    ensures r.Some? ==> exists k | k in Members(db, s) && Some(k) != except :: Pos(db, k) == r.value
    ensures r.Some? ==> forall k | k in Members(db, s) && Some(k) != except :: Pos(db, k) <= r.value
  {
    MembersRanked(db, s);
    var c := Excluding(Members(db, s), except);
    if c == {} then None
    else
      var m := ArgMax(db, c);
      Some(Pos(db, m))
  }

  /** How many rows a query with SQL `LIMIT limit` returns out of `n` candidates. */
  function Limited(n: nat, limit: Option<nat>): (c: nat)
    ensures c <= n
    ensures limit.None? ==> c == n
    ensures limit.Some? ==> c == if limit.value < n then limit.value else n
  {
    if limit.Some? && limit.value < n then limit.value else n
  }

  /**
   * items_above(x, limit): the (at most `limit`) records of scope `s` nearest
   * before position `x`, in ascending order.
   */
  function ItemsAbove(db: Table, s: ScopeKey, x: real, limit: Option<nat>): (r: seq<Id>)
    requires DistinctPositions(db)
    ensures Ascending(db, r)
    ensures forall i | 0 <= i < |r| :: r[i] in Below(db, Members(db, s), x)
    ensures |r| == Limited(|Below(db, Members(db, s), x)|, limit)
    ensures forall k, i | k in Below(db, Members(db, s), x) && k !in r && 0 <= i < |r|
              :: Pos(db, k) < Pos(db, r[i])
    ensures limit.None? ==> Lists(r, Below(db, Members(db, s), x))
  {
    MembersRanked(db, s);
    var b := Below(db, Members(db, s), x);
    RankedSubset(db, Members(db, s), b);
    var o := SortByPos(db, b);
    var n := |o| - Limited(|o|, limit);
    SuffixNearest(db, b, o, n);
    o[n..]
  }

  /**
   * items_below(x, limit): the (at most `limit`) records of scope `s` nearest
   * after position `x`, in ascending order.
   */
  function ItemsBelow(db: Table, s: ScopeKey, x: real, limit: Option<nat>): (r: seq<Id>)
    requires DistinctPositions(db)
    ensures Ascending(db, r)
    ensures forall i | 0 <= i < |r| :: r[i] in Above(db, Members(db, s), x)
    ensures |r| == Limited(|Above(db, Members(db, s), x)|, limit)
    ensures forall k, i | k in Above(db, Members(db, s), x) && k !in r && 0 <= i < |r|
              :: Pos(db, r[i]) < Pos(db, k)
    ensures limit.None? ==> Lists(r, Above(db, Members(db, s), x))
  {
    MembersRanked(db, s);
    var a := Above(db, Members(db, s), x);
    RankedSubset(db, Members(db, s), a);
    var o := SortByPos(db, a);
    var n := Limited(|o|, limit);
    PrefixNearest(db, a, o, n);
    o[..n]
  }

  /** higher_items(limit): the items before this one; none when it is not in the list. */
  function HigherItems(db: Table, item: Id, limit: Option<nat>): (r: seq<Id>)
    requires DistinctPositions(db) && item in db
    ensures !InList(db, item) ==> r == []
    ensures InList(db, item) ==> r == ItemsAbove(db, ScopeOf(db, item), Pos(db, item), limit)
  {
    if InList(db, item) then ItemsAbove(db, ScopeOf(db, item), Pos(db, item), limit) else []
  }

  /** lower_items(limit): the items after this one; none when it is not in the list. */
  function LowerItems(db: Table, item: Id, limit: Option<nat>): (r: seq<Id>)
    requires DistinctPositions(db) && item in db
    ensures !InList(db, item) ==> r == []
    ensures InList(db, item) ==> r == ItemsBelow(db, ScopeOf(db, item), Pos(db, item), limit)
  {
    if InList(db, item) then ItemsBelow(db, ScopeOf(db, item), Pos(db, item), limit) else []
  }

  /** `h` is the record of the list positioned nearest before `item`. */
  ghost predicate NearestBefore(db: Table, item: Id, h: Id)
    requires item in db
  {
    InList(db, item) && h in Members(db, ScopeOf(db, item)) && Pos(db, h) < Pos(db, item) &&
    forall k | k in Members(db, ScopeOf(db, item)) && Pos(db, k) < Pos(db, item) :: Pos(db, k) <= Pos(db, h)
  }

  /** `l` is the record of the list positioned nearest after `item`. */
  ghost predicate NearestAfter(db: Table, item: Id, l: Id)
    requires item in db
  {
    InList(db, item) && l in Members(db, ScopeOf(db, item)) && Pos(db, item) < Pos(db, l) &&
    forall k | k in Members(db, ScopeOf(db, item)) && Pos(db, item) < Pos(db, k) :: Pos(db, l) <= Pos(db, k)
  }

  /** higher_item: the last of the higher items, that is the nearest record before this one. */
  function HigherItem(db: Table, item: Id): (r: Option<Id>)
    requires DistinctPositions(db) && item in db
    ensures r.Some? ==> NearestBefore(db, item, r.value)
    ensures r.None? <==> (!InList(db, item) ||
              forall k | k in Members(db, ScopeOf(db, item)) :: Pos(db, item) <= Pos(db, k))
  {
    var h := HigherItems(db, item, None);
    if h == [] then
      assert InList(db, item) ==> forall k | k in Members(db, ScopeOf(db, item)) :: Pos(db, item) <= Pos(db, k) by {
        if InList(db, item) {
          forall k | k in Members(db, ScopeOf(db, item)) ensures Pos(db, item) <= Pos(db, k) {
            assert k !in Below(db, Members(db, ScopeOf(db, item)), Pos(db, item));
          }
        }
      }
      None
    else
      LastIsGreatest(db, h);
      var m := h[|h| - 1];
      assert NearestBefore(db, item, m) by {
        forall k | k in Members(db, ScopeOf(db, item)) && Pos(db, k) < Pos(db, item)
          ensures Pos(db, k) <= Pos(db, m)
        {
          assert k in Below(db, Members(db, ScopeOf(db, item)), Pos(db, item));
        }
      }
      Some(m)
  }

  /** lower_item: the first of the lower items, that is the nearest record after this one. */
  function LowerItem(db: Table, item: Id): (r: Option<Id>)
    requires DistinctPositions(db) && item in db
    ensures r.Some? ==> NearestAfter(db, item, r.value)
    ensures r.None? <==> (!InList(db, item) ||
              forall k | k in Members(db, ScopeOf(db, item)) :: Pos(db, k) <= Pos(db, item))
  {
    var l := LowerItems(db, item, None);
    if l == [] then
      assert InList(db, item) ==> forall k | k in Members(db, ScopeOf(db, item)) :: Pos(db, k) <= Pos(db, item) by {
        if InList(db, item) {
          forall k | k in Members(db, ScopeOf(db, item)) ensures Pos(db, k) <= Pos(db, item) {
            assert k !in Above(db, Members(db, ScopeOf(db, item)), Pos(db, item));
          }
        }
      }
      None
    else
      FirstIsLeast(db, l);
      var m := l[0];
      assert NearestAfter(db, item, m) by {
        forall k | k in Members(db, ScopeOf(db, item)) && Pos(db, item) < Pos(db, k)
          ensures Pos(db, m) <= Pos(db, k)
        {
          assert k in Above(db, Members(db, ScopeOf(db, item)), Pos(db, item));
        }
      }
      Some(m)
  }

  /**
   * index_in_list: the number of records before this one plus the top of the
   * list; None when the record is not in the list.
   */
  function IndexInList(db: Table, item: Id, top: int): (r: Option<int>)
    requires DistinctPositions(db) && item in db
    ensures r.Some? <==> InList(db, item)
    ensures r.Some? ==> top <= r.value
  {
    if InList(db, item) then Some(|HigherItems(db, item, None)| + top) else None
  }

  /** index_in_list counts the records of the list positioned before this one, from the top. */
  lemma IndexCountsHigher(db: Table, item: Id, top: int)
    requires DistinctPositions(db) && item in db && InList(db, item)
    ensures IndexInList(db, item, top).value == top + |Below(db, Members(db, ScopeOf(db, item)), Pos(db, item))|
  {
    assert |HigherItems(db, item, None)| == Limited(|Below(db, Members(db, ScopeOf(db, item)), Pos(db, item))|, None);
  }

  /** The index of an in-list record, less the top, is its place in the list's order. */
  lemma IndexInListPlace(db: Table, item: Id, top: int)
    requires DistinctPositions(db) && item in db && InList(db, item)
    ensures 0 <= IndexInList(db, item, top).value - top < |Order(db, ScopeOf(db, item))|
    ensures Order(db, ScopeOf(db, item))[IndexInList(db, item, top).value - top] == item
  {
    var s := ScopeOf(db, item);
    var o := Order(db, s);
    MembersRanked(db, s);
    assert item in o;
    var i :| 0 <= i < |o| && o[i] == item;
    RankInSorted(db, Members(db, s), o, i);
  }

  /** item_at_index: the record at 0-based offset `i` of the ordered list, if any. */
  function ItemAtIndex(db: Table, s: ScopeKey, i: int): (r: Option<Id>)
    requires DistinctPositions(db)
    ensures r.Some? <==> 0 <= i < |Members(db, s)|
    ensures r.Some? ==> r.value == Order(db, s)[i]
  {
    var o := Order(db, s);
    if 0 <= i < |o| then Some(o[i]) else None
  }

  /** The item found at offset `i` has exactly `i` records of the list before it. */
  lemma ItemAtIndexRank(db: Table, s: ScopeKey, i: int)
    requires DistinctPositions(db) && ItemAtIndex(db, s, i).Some?
    ensures ItemAtIndex(db, s, i).value in Members(db, s)
    ensures |Below(db, Members(db, s), Pos(db, ItemAtIndex(db, s, i).value))| == i
  {
    MembersRanked(db, s);
    RankInSorted(db, Members(db, s), Order(db, s), i);
  }

  /** first?: in the list, and no record of the list is positioned before it. */
  function IsFirst(db: Table, item: Id): (b: bool)
    requires DistinctPositions(db) && item in db
    ensures b <==> InList(db, item) &&
                   forall k | k in Members(db, ScopeOf(db, item)) :: Pos(db, item) <= Pos(db, k)
  {
    InList(db, item) && Pos(db, item) <= TopPosition(db, ScopeOf(db, item), None).value
  }

  /** last?: in the list, and no record of the list is positioned after it. */
  function IsLast(db: Table, item: Id): (b: bool)
    requires DistinctPositions(db) && item in db
    ensures b <==> InList(db, item) &&
                   forall k | k in Members(db, ScopeOf(db, item)) :: Pos(db, k) <= Pos(db, item)
  {
    InList(db, item) && Pos(db, item) >= BottomPosition(db, ScopeOf(db, item), None).value
  }

  /** index_in_list reports `n` for `item`. */
  predicate HasIndex(db: Table, item: Id, top: int, n: int)
    requires DistinctPositions(db) && item in db
  {
    IndexInList(db, item, top).Some? && IndexInList(db, item, top).value == n
  }

  /** item_at_index(i) finds `item` in scope `s`. */
  predicate FoundAt(db: Table, s: ScopeKey, i: int, item: Id)
    requires DistinctPositions(db)
  {
    ItemAtIndex(db, s, i).Some? && ItemAtIndex(db, s, i).value == item
  }

  /** A record at place `j` of the list's order has index `top + j`. */
  lemma OrderPlace(db: Table, item: Id, top: int, j: int)
    requires DistinctPositions(db) && item in db
    requires 0 <= j < |Order(db, ScopeOf(db, item))| && Order(db, ScopeOf(db, item))[j] == item
    ensures HasIndex(db, item, top, top + j)
  {
    var o := Order(db, ScopeOf(db, item));
    MembersRanked(db, ScopeOf(db, item));
    RankInSorted(db, Members(db, ScopeOf(db, item)), o, j);
  }

  /** The item found at an index reports that index back. */
  lemma ItemThenIndex(db: Table, item: Id, top: int, i: int)
    requires DistinctPositions(db) && item in db
    ensures FoundAt(db, ScopeOf(db, item), i, item) ==> HasIndex(db, item, top, top + i)
  {
    if FoundAt(db, ScopeOf(db, item), i, item) {
      OrderPlace(db, item, top, i);
    }
  }

  /** An item reporting index `top + i` is the item found at offset `i`. */
  lemma IndexThenItem(db: Table, item: Id, top: int, i: int)
    requires DistinctPositions(db) && item in db
    ensures HasIndex(db, item, top, top + i) ==> FoundAt(db, ScopeOf(db, item), i, item)
  {
    if HasIndex(db, item, top, top + i) {
      IndexInListPlace(db, item, top);
    }
  }

  /** Reading the index of the item found at an index gives that index back, and conversely. */
  lemma IndexItemRoundTrip(db: Table, item: Id, top: int, i: int)
    requires DistinctPositions(db) && item in db
    ensures FoundAt(db, ScopeOf(db, item), i, item) <==> HasIndex(db, item, top, top + i)
  {
    ItemThenIndex(db, item, top, i);
    IndexThenItem(db, item, top, i);
  }

  /** first? holds exactly when the index is the top of the list. */
  lemma FirstIffIndexTop(db: Table, item: Id, top: int)
    requires DistinctPositions(db) && item in db
    ensures IsFirst(db, item) <==> HasIndex(db, item, top, top)
  {
    if InList(db, item) {
      IndexInListPlace(db, item, top);
      var o := Order(db, ScopeOf(db, item));
      var j := IndexInList(db, item, top).value - top;
      AscendingIndex(db, o, j, 0);
      FirstIsLeast(db, o);
    }
  }

  /** An item that is last? has the bottom index. */
  lemma LastHasBottomIndex(db: Table, item: Id, top: int)
    requires DistinctPositions(db) && item in db
    ensures IsLast(db, item) ==> HasIndex(db, item, top, top + |Order(db, ScopeOf(db, item))| - 1)
  {
    if IsLast(db, item) {
      IndexInListPlace(db, item, top);
      var o := Order(db, ScopeOf(db, item));
      var j := IndexInList(db, item, top).value - top;
      assert o[|o| - 1] in Members(db, ScopeOf(db, item));
      AscendingIndex(db, o, |o| - 1, j);
    }
  }

  /** An item with the bottom index is last?. */
  lemma BottomIndexIsLast(db: Table, item: Id, top: int)
    requires DistinctPositions(db) && item in db
    ensures HasIndex(db, item, top, top + |Order(db, ScopeOf(db, item))| - 1) ==> IsLast(db, item)
  {
    var o := Order(db, ScopeOf(db, item));
    if HasIndex(db, item, top, top + |o| - 1) {
      IndexInListPlace(db, item, top);
      LastIsGreatest(db, o);
      forall k | k in Members(db, ScopeOf(db, item)) ensures Pos(db, k) <= Pos(db, item) {
        assert k in o;
      }
    }
  }

  /** last? holds exactly when the index is the last one of the list. */
  lemma LastIffIndexBottom(db: Table, item: Id, top: int)
    requires DistinctPositions(db) && item in db
    ensures IsLast(db, item) <==> HasIndex(db, item, top, top + |Order(db, ScopeOf(db, item))| - 1)
  {
    LastHasBottomIndex(db, item, top);
    BottomIndexIsLast(db, item, top);
  }

  /** The higher item sits at the index just above this item's. */
  lemma HigherItemIndex(db: Table, item: Id, top: int)
    requires DistinctPositions(db) && item in db && HigherItem(db, item).Some?
    ensures HigherItem(db, item).value in db
    ensures IndexInList(db, HigherItem(db, item).value, top).Some?
    ensures IndexInList(db, HigherItem(db, item).value, top).value == IndexInList(db, item, top).value - 1
  {
    IndexInListPlace(db, item, top);
    var h := HigherItem(db, item).value;
    var s := ScopeOf(db, item);
    var o := Order(db, s);
    var i := IndexInList(db, item, top).value - top;
    assert h in o;
    var j :| 0 <= j < |o| && o[j] == h;
    AscendingIndex(db, o, j, i);
    assert o[i - 1] in Members(db, s);
    AscendingIndex(db, o, i - 1, i);
    AscendingIndex(db, o, i - 1, j);
    OrderPlace(db, h, top, j);
  }

  /** The lower item sits at the index just below this item's. */
  lemma LowerItemIndex(db: Table, item: Id, top: int)
    requires DistinctPositions(db) && item in db && LowerItem(db, item).Some?
    ensures LowerItem(db, item).value in db
    ensures IndexInList(db, LowerItem(db, item).value, top).Some?
    ensures IndexInList(db, LowerItem(db, item).value, top).value == IndexInList(db, item, top).value + 1
  {
    IndexInListPlace(db, item, top);
    var l := LowerItem(db, item).value;
    var s := ScopeOf(db, item);
    var o := Order(db, s);
    var i := IndexInList(db, item, top).value - top;
    assert l in o;
    var j :| 0 <= j < |o| && o[j] == l;
    AscendingIndex(db, o, i, j);
    assert o[i + 1] in Members(db, s);
    AscendingIndex(db, o, i, i + 1);
    AscendingIndex(db, o, j, i + 1);
    OrderPlace(db, l, top, j);
  }

  /** The record at place `t` of the order has a higher item exactly when `t` is not the first place. */
  lemma HigherExistsInOrder(db: Table, s: ScopeKey, t: int)
    requires DistinctPositions(db) && 0 <= t < |Order(db, s)|
    ensures Order(db, s)[t] in db
    ensures HigherItem(db, Order(db, s)[t]).Some? <==> 0 < t
  {
    var o := Order(db, s);
    var x := o[t];
    assert x in Members(db, s);
    if 0 < t {
      assert o[t - 1] in Members(db, s);
      assert Pos(db, o[t - 1]) < Pos(db, x);
    } else {
      FirstIsLeast(db, o);
      forall k | k in Members(db, s) ensures Pos(db, x) <= Pos(db, k) {
        assert k in o;
      }
    }
  }

  /** The higher item of the record at place `t > 0` of the order is the record at place `t - 1`. */
  lemma HigherIsPrevious(db: Table, s: ScopeKey, t: int)
    requires DistinctPositions(db) && 0 < t < |Order(db, s)|
    ensures Order(db, s)[t] in db
    ensures HigherItem(db, Order(db, s)[t]).Some?
    ensures HigherItem(db, Order(db, s)[t]).value == Order(db, s)[t - 1]
  {
    var o := Order(db, s);
    var x := o[t];
    HigherExistsInOrder(db, s, t);
    var h := HigherItem(db, x).value;
    assert h in o;
    var j :| 0 <= j < |o| && o[j] == h;
    AscendingIndex(db, o, j, t);
    assert o[t - 1] in Members(db, s);
    AscendingIndex(db, o, t - 1, t);
    AscendingIndex(db, o, t - 1, j);
  }

  /** The record at place `t` of the order has a lower item exactly when `t` is not the last place. */
  lemma LowerExistsInOrder(db: Table, s: ScopeKey, t: int)
    requires DistinctPositions(db) && 0 <= t < |Order(db, s)|
    ensures Order(db, s)[t] in db
    ensures LowerItem(db, Order(db, s)[t]).Some? <==> t < |Order(db, s)| - 1
  {
    var o := Order(db, s);
    var x := o[t];
    assert x in Members(db, s);
    if t < |o| - 1 {
      assert o[t + 1] in Members(db, s);
      assert Pos(db, x) < Pos(db, o[t + 1]);
    } else {
      LastIsGreatest(db, o);
      forall k | k in Members(db, s) ensures Pos(db, k) <= Pos(db, x) {
        assert k in o;
      }
    }
  }

  /** The lower item of the record at a place before the last is the record at the next place. */
  lemma LowerIsNext(db: Table, s: ScopeKey, t: int)
    requires DistinctPositions(db) && 0 <= t < |Order(db, s)| - 1
    ensures Order(db, s)[t] in db
    ensures LowerItem(db, Order(db, s)[t]).Some?
    ensures LowerItem(db, Order(db, s)[t]).value == Order(db, s)[t + 1]
  {
    var o := Order(db, s);
    var x := o[t];
    LowerExistsInOrder(db, s, t);
    var l := LowerItem(db, x).value;
    assert l in o;
    var j :| 0 <= j < |o| && o[j] == l;
    AscendingIndex(db, o, t, j);
    assert o[t + 1] in Members(db, s);
    AscendingIndex(db, o, t, t + 1);
    AscendingIndex(db, o, j, t + 1);
  }
}
