/**
 * The single-record writes of the list engine, as functions from the table
 * before the write to the table after it: set_list_position, the swap used
 * by move_lower/move_higher, the moves to an edge, remove_from_list and the
 * edge insertions add_to_list_top/add_to_list_bottom.
 */
module Moves {
  import opened Wrappers
  import opened Store
  import opened Queries

  /** `r` has the records of `db`, each in its old scope, and differs from `db` only at ids in `w`. */
  ghost predicate OnlyWrote(db: Table, r: Table, w: set<Id>)
  {
    (forall k :: k in r <==> k in db) &&
    forall k | k in db :: r[k].scope == db[k].scope && (k !in w ==> r[k] == db[k])
  }

  /** set_list_position: write `p` into the position column of `k`. */
  function SetPos(db: Table, k: Id, p: Option<real>): (r: Table)
    requires k in db
    ensures OnlyWrote(db, r, {k}) && r[k].pos == p
  {
    db[k := Row(db[k].scope, p)]
  }

  /** The in-list records of a scope after one write. */
  lemma MembersAfterWrite(db: Table, k: Id, p: Option<real>, s: ScopeKey)
    requires k in db
    ensures db[k].scope == s && p.Some? ==> Members(SetPos(db, k, p), s) == Members(db, s) + {k}
    ensures !(db[k].scope == s && p.Some?) ==> Members(SetPos(db, k, p), s) == Members(db, s) - {k}
  {
    var r := SetPos(db, k, p);
    if db[k].scope == s && p.Some? {
      forall j ensures j in Members(r, s) <==> j in Members(db, s) + {k} {
        if j in db && j != k {
          assert r[j] == db[j];
        }
      }
    } else {
      forall j ensures j in Members(r, s) <==> j in Members(db, s) - {k} {
        if j in db && j != k {
          assert r[j] == db[j];
        }
      }
    }
  }

  /** Writing a position that no other in-list record of the scope holds keeps positions distinct. */
  lemma WriteKeepsDistinct(db: Table, k: Id, p: Option<real>)
    requires DistinctPositions(db) && k in db
    requires p.Some? ==> forall j | j in Members(db, db[k].scope) && j != k :: Pos(db, j) != p.value
    ensures DistinctPositions(SetPos(db, k, p))
  {
    var r := SetPos(db, k, p);
    forall a, b | a in r && b in r && a != b && r[a].scope == r[b].scope && r[a].pos.Some? && r[b].pos.Some?
      ensures r[a].pos != r[b].pos
    {
      if a == k {
        assert b in Members(db, db[k].scope);
      } else if b == k {
        assert a in Members(db, db[k].scope);
      } else {
        assert r[a] == db[a] && r[b] == db[b];
      }
    }
  }

  /** swap_positions_with: `a` takes the position of `b`, then `b` takes the old position of `a`. */
  function Swapped(db: Table, a: Id, b: Id): (r: Table)
    requires a in db && b in db
    ensures OnlyWrote(db, r, {a, b})
    ensures r[a].pos == db[b].pos && r[b].pos == db[a].pos
  {
    var first := SetPos(db, a, db[b].pos);
    SetPos(first, b, db[a].pos)
  }

  /** Exchanging the positions of two records of one scope keeps positions distinct. */
  lemma SwapKeepsDistinct(db: Table, a: Id, b: Id)
    requires DistinctPositions(db) && a in db && b in db && db[a].scope == db[b].scope
    ensures DistinctPositions(Swapped(db, a, b))
  {
    var r := Swapped(db, a, b);
    forall x, y | x in r && y in r && x != y && r[x].scope == r[y].scope && r[x].pos.Some? && r[y].pos.Some?
      ensures r[x].pos != r[y].pos
    {
      var x' := if x == a then b else if x == b then a else x;
      var y' := if y == a then b else if y == b then a else y;
      assert r[x].pos == db[x'].pos && r[y].pos == db[y'].pos;
      assert db[x'].pos != db[y'].pos;
    }
  }

  /** Swapping twice restores the table. */
  lemma SwapTwice(db: Table, a: Id, b: Id)
    requires a in db && b in db && a != b
    ensures Swapped(Swapped(db, a, b), a, b) == db
  {
    var r := Swapped(Swapped(db, a, b), a, b);
    forall k | k in db ensures r[k] == db[k] {
      if k != a && k != b {
        assert Swapped(db, a, b)[k] == db[k];
      }
    }
    assert r.Keys == db.Keys;
  }

  /** Which of the two records is named first does not matter to a swap. */
  lemma SwapSymmetric(db: Table, a: Id, b: Id)
    requires a in db && b in db
    ensures Swapped(db, a, b) == Swapped(db, b, a)
  {
    var x := Swapped(db, a, b);
    var y := Swapped(db, b, a);
    forall k | k in db ensures x[k] == y[k] {
      if k != a && k != b {
        assert x[k] == db[k] && y[k] == db[k];
      }
    }
    assert x.Keys == y.Keys;
  }

  /** A listing with the entries at places `i` and `i + 1` exchanged. */
  function ExchangeAt(o: seq<Id>, i: int): (e: seq<Id>)
    requires 0 <= i < |o| - 1
    ensures |e| == |o| && e[i] == o[i + 1] && e[i + 1] == o[i]
    ensures forall j | 0 <= j < |o| && j != i && j != i + 1 :: e[j] == o[j]
  {
    o[i := o[i + 1]][i + 1 := o[i]]
  }

  /** A listing of `S` with two neighbours exchanged still lists `S`. */
  lemma ExchangeLists(o: seq<Id>, i: int, S: set<Id>)
    requires 0 <= i < |o| - 1 && Lists(o, S)
    ensures Lists(ExchangeAt(o, i), S)
  {
    var e := ExchangeAt(o, i);
    forall j | 0 <= j < |e| ensures e[j] in S {
      assert e[j] in o;
    }
    forall k | k in S ensures k in e {
      var j :| 0 <= j < |o| && o[j] == k;
      var j' := if j == i then i + 1 else if j == i + 1 then i else j;
      assert e[j'] == k;
    }
  }

  /** Exchanging the positions of two records of a list keeps the list's records. */
  lemma SwapKeepsMembers(db: Table, a: Id, b: Id, s: ScopeKey)
    requires a in Members(db, s) && b in Members(db, s)
    ensures Members(Swapped(db, a, b), s) == Members(db, s)
  {
    var r := Swapped(db, a, b);
    forall k ensures k in Members(r, s) <==> k in Members(db, s) {
      if k in db && k != a && k != b {
        assert r[k] == db[k];
      }
    }
  }

  /** Swapping the records at neighbouring places of the order exchanges their places and moves no one else. */
  lemma SwapNeighboursOrder(db: Table, s: ScopeKey, i: int)
    requires DistinctPositions(db) && 0 <= i < |Order(db, s)| - 1
    ensures Order(db, s)[i] in db && Order(db, s)[i + 1] in db
    ensures DistinctPositions(Swapped(db, Order(db, s)[i], Order(db, s)[i + 1]))
    ensures Order(Swapped(db, Order(db, s)[i], Order(db, s)[i + 1]), s) == ExchangeAt(Order(db, s), i)
  {
    var o := Order(db, s);
    var a := o[i];
    var b := o[i + 1];
    assert a in Members(db, s) && b in Members(db, s);
    var r := Swapped(db, a, b);
    SwapKeepsDistinct(db, a, b);
    ListsCard(db, Members(db, s), o);
    var e := ExchangeAt(o, i);
    SwapKeepsMembers(db, a, b, s);
    forall j | 0 <= j < |e| ensures Positioned(r, e[j]) && Pos(r, e[j]) == Pos(db, o[j]) {
      if j != i && j != i + 1 {
        assert e[j] == o[j] && o[j] != a && o[j] != b;
        assert r[o[j]] == db[o[j]];
      }
    }
    assert Ascending(r, e) by {
      forall j, k | 0 <= j < k < |e| ensures Pos(r, e[j]) < Pos(r, e[k]) {
        assert Pos(db, o[j]) < Pos(db, o[k]);
      }
    }
    ExchangeLists(o, i, Members(db, s));
    MembersRanked(r, s);
    SortedUnique(r, Members(r, s), e);
  }

  /**
   * move_lower: swap positions with the lower item. The comment on move_lower
   * promises this "if one exists"; with no lower item nothing changes.
   */
  function MovedLower(db: Table, item: Id): (r: Table)
    requires DistinctPositions(db) && item in db
    ensures DistinctPositions(r)
    ensures LowerItem(db, item).None? ==> r == db
    ensures LowerItem(db, item).Some? ==> OnlyWrote(db, r, {item, LowerItem(db, item).value})
  {
    match LowerItem(db, item)
    case None => db
    case Some(l) =>
      SwapKeepsDistinct(db, item, l);
      Swapped(db, item, l)
  }

  /**
   * move_higher: swap positions with the higher item. The comment on
   * move_higher promises this "if one exists"; with no higher item nothing changes.
   */
  function MovedHigher(db: Table, item: Id): (r: Table)
    requires DistinctPositions(db) && item in db
    ensures DistinctPositions(r)
    ensures HigherItem(db, item).None? ==> r == db
    ensures HigherItem(db, item).Some? ==> OnlyWrote(db, r, {item, HigherItem(db, item).value})
  {
    match HigherItem(db, item)
    case None => db
    case Some(h) =>
      SwapKeepsDistinct(db, item, h);
      Swapped(db, item, h)
  }

  /** move_lower on the record at place `t` (not the last) exchanges it with the record at place `t + 1`. */
  lemma MoveLowerExchanges(db: Table, s: ScopeKey, t: int)
    requires DistinctPositions(db) && 0 <= t < |Order(db, s)| - 1
    ensures Order(db, s)[t] in db
    ensures Order(MovedLower(db, Order(db, s)[t]), s) == ExchangeAt(Order(db, s), t)
  {
    LowerIsNext(db, s, t);
    MovedLowerIsSwap(db, Order(db, s)[t], Order(db, s)[t + 1]);
    SwapNeighboursOrder(db, s, t);
  }

  /** move_higher on the record at place `t` (not the first) exchanges it with the record at place `t - 1`. */
  lemma MoveHigherExchanges(db: Table, s: ScopeKey, t: int)
    requires DistinctPositions(db) && 0 < t < |Order(db, s)|
    ensures Order(db, s)[t] in db
    ensures Order(MovedHigher(db, Order(db, s)[t]), s) == ExchangeAt(Order(db, s), t - 1)
  {
    MoveHigherIsLowerOfPrevious(db, s, t);
    MoveLowerExchanges(db, s, t - 1);
  }

  /** Moving a record up is the same write as moving its higher neighbour down. */
  lemma MoveHigherIsLowerOfPrevious(db: Table, s: ScopeKey, t: int)
    requires DistinctPositions(db) && 0 < t < |Order(db, s)|
    ensures Order(db, s)[t] in db && Order(db, s)[t - 1] in db
    ensures MovedHigher(db, Order(db, s)[t]) == MovedLower(db, Order(db, s)[t - 1])
  {
    var o := Order(db, s);
    HigherIsPrevious(db, s, t);
    LowerIsNext(db, s, t - 1);
    MovedHigherIsSwap(db, o[t], o[t - 1]);
    MovedLowerIsSwap(db, o[t - 1], o[t]);
    SwapSymmetric(db, o[t], o[t - 1]);
  }

  /** With a higher neighbour `h`, move_higher is the exchange of positions with it. */
  lemma MovedHigherIsSwap(db: Table, item: Id, h: Id)
    requires DistinctPositions(db) && item in db && HigherItem(db, item).Some? && HigherItem(db, item).value == h
    ensures h in db && MovedHigher(db, item) == Swapped(db, item, h)
  {
  }

  /** With a lower neighbour `l`, move_lower is the exchange of positions with it. */
  lemma MovedLowerIsSwap(db: Table, item: Id, l: Id)
    requires DistinctPositions(db) && item in db && LowerItem(db, item).Some? && LowerItem(db, item).value == l
    ensures l in db && MovedLower(db, item) == Swapped(db, item, l)
  {
  }


  /** After move_lower the old lower item is the higher item. */
  lemma HigherAfterMoveLower(db: Table, item: Id)
    requires DistinctPositions(db) && item in db && LowerItem(db, item).Some?
    ensures item in MovedLower(db, item)
    ensures HigherItem(MovedLower(db, item), item).Some?
    ensures HigherItem(MovedLower(db, item), item).value == LowerItem(db, item).value
  {
    var s := ScopeOf(db, item);
    var o := Order(db, s);
    assert item in o;
    var t :| 0 <= t < |o| && o[t] == item;
    LowerExistsInOrder(db, s, t);
    LowerIsNext(db, s, t);
    MoveLowerExchanges(db, s, t);
    HigherOfExchanged(MovedLower(db, item), s, o, t);
  }

  /** In a list whose order is `o` with places `t` and `t + 1` exchanged, `o[t + 1]` is right above `o[t]`. */
  lemma HigherOfExchanged(r: Table, s: ScopeKey, o: seq<Id>, t: int)
    requires DistinctPositions(r) && 0 <= t < |o| - 1 && Order(r, s) == ExchangeAt(o, t)
    ensures o[t] in r && HigherItem(r, o[t]).Some? && HigherItem(r, o[t]).value == o[t + 1]
  {
    HigherIsPrevious(r, s, t + 1);
  }


  /** Exchanging the positions of two records of a list keeps the list's set of positions. */
  lemma SwapKeepsPositions(db: Table, a: Id, b: Id, s: ScopeKey)
    requires a in Members(db, s) && b in Members(db, s)
    ensures ScopePositions(Swapped(db, a, b), s) == ScopePositions(db, s)
  {
    var r := Swapped(db, a, b);
    SwapKeepsMembers(db, a, b, s);
    forall p | p in ScopePositions(r, s) ensures p in ScopePositions(db, s) {
      var k :| k in Members(r, s) && Pos(r, k) == p;
      var j := if k == a then b else if k == b then a else k;
      assert j in Members(db, s) && Pos(db, j) == p;
    }
    forall p | p in ScopePositions(db, s) ensures p in ScopePositions(r, s) {
      var k :| k in Members(db, s) && Pos(db, k) == p;
      var j := if k == a then b else if k == b then a else k;
      assert j in Members(r, s) && Pos(r, j) == p;
    }
  }

  /** move_lower and move_higher keep the list's set of positions: they only deal them out anew. */
  lemma MovesKeepPositions(db: Table, item: Id)
    requires DistinctPositions(db) && item in db
    ensures ScopePositions(MovedLower(db, item), ScopeOf(db, item)) == ScopePositions(db, ScopeOf(db, item))
    ensures ScopePositions(MovedHigher(db, item), ScopeOf(db, item)) == ScopePositions(db, ScopeOf(db, item))
  {
    var s := ScopeOf(db, item);
    var lower := LowerItem(db, item);
    if lower.Some? {
      MovedLowerIsSwap(db, item, lower.value);
      SwapKeepsPositions(db, item, lower.value, s);
    }
    var higher := HigherItem(db, item);
    if higher.Some? {
      MovedHigherIsSwap(db, item, higher.value);
      SwapKeepsPositions(db, item, higher.value, s);
    }
  }

  /** move_lower followed by move_higher restores the table, when there is a lower item. */
  lemma MoveLowerThenHigherRestores(db: Table, item: Id)
    requires DistinctPositions(db) && item in db && LowerItem(db, item).Some?
    ensures item in MovedLower(db, item)
    ensures MovedHigher(MovedLower(db, item), item) == db
  {
    HigherAfterMoveLower(db, item);
    SwapTwice(db, item, LowerItem(db, item).value);
  }

  /** After move_higher the old higher item is the lower item. */
  lemma LowerAfterMoveHigher(db: Table, item: Id)
    requires DistinctPositions(db) && item in db && HigherItem(db, item).Some?
    ensures item in MovedHigher(db, item)
    ensures LowerItem(MovedHigher(db, item), item).Some?
    ensures LowerItem(MovedHigher(db, item), item).value == HigherItem(db, item).value
  {
    var s := ScopeOf(db, item);
    var o := Order(db, s);
    assert item in o;
    var t :| 0 <= t < |o| && o[t] == item;
    HigherExistsInOrder(db, s, t);
    HigherIsPrevious(db, s, t);
    MoveHigherIsLowerOfPrevious(db, s, t);
    LowerAfterMoveLowerOfPrevious(db, s, o, t);
  }

  /** After move_lower on the record at place `t - 1`, the record from place `t` is right above it. */
  lemma LowerAfterMoveLowerOfPrevious(db: Table, s: ScopeKey, o: seq<Id>, t: int)
    requires DistinctPositions(db) && o == Order(db, s) && 0 < t < |o|
    ensures o[t - 1] in db
    ensures o[t] in MovedLower(db, o[t - 1])
    ensures LowerItem(MovedLower(db, o[t - 1]), o[t]).Some?
    ensures LowerItem(MovedLower(db, o[t - 1]), o[t]).value == o[t - 1]
  {
    MoveLowerExchanges(db, s, t - 1);
    LowerOfExchanged(MovedLower(db, o[t - 1]), s, o, t - 1);
  }

  /** In a list whose order is `o` with places `t` and `t + 1` exchanged, `o[t]` is right below `o[t + 1]`. */
  lemma LowerOfExchanged(r: Table, s: ScopeKey, o: seq<Id>, t: int)
    requires DistinctPositions(r) && 0 <= t < |o| - 1 && Order(r, s) == ExchangeAt(o, t)
    ensures o[t + 1] in r && LowerItem(r, o[t + 1]).Some? && LowerItem(r, o[t + 1]).value == o[t]
  {
    LowerIsNext(r, s, t);
  }

  /** move_higher followed by move_lower restores the table, when there is a higher item. */
  lemma MoveHigherThenLowerRestores(db: Table, item: Id)
    requires DistinctPositions(db) && item in db && HigherItem(db, item).Some?
    ensures item in MovedHigher(db, item)
    ensures MovedLower(MovedHigher(db, item), item) == db
  {
    LowerAfterMoveHigher(db, item);
    SwapTwice(db, item, HigherItem(db, item).value);
  }

  /**
   * move_lower as written: it hands the lower item to the swap even when
   * there is none, and the swap then fails reading the position of nothing.
   */
  function MoveLowerAsWritten(db: Table, item: Id): (r: Result<Table, Error>)
    requires DistinctPositions(db) && item in db
    ensures r.Err? <==> LowerItem(db, item).None?
    ensures r.Err? ==> r.error == NilNeighbour
    ensures r.Ok? ==> OnlyWrote(db, r.value, {item, LowerItem(db, item).value})
  {
    match LowerItem(db, item)
    case None => Err(NilNeighbour)
    case Some(l) => Ok(Swapped(db, item, l))
  }

  /** move_higher as written: the same failure when there is no higher item. */
  function MoveHigherAsWritten(db: Table, item: Id): (r: Result<Table, Error>)
    requires DistinctPositions(db) && item in db
    ensures r.Err? <==> HigherItem(db, item).None?
    ensures r.Err? ==> r.error == NilNeighbour
    ensures r.Ok? ==> OnlyWrote(db, r.value, {item, HigherItem(db, item).value})
  {
    match HigherItem(db, item)
    case None => Err(NilNeighbour)
    case Some(h) => Ok(Swapped(db, item, h))
  }

  /** Where the code as written succeeds it agrees with the corrected moves. */
  lemma AsWrittenAgrees(db: Table, item: Id)
    requires DistinctPositions(db) && item in db
    ensures MoveLowerAsWritten(db, item).Ok? ==> MoveLowerAsWritten(db, item).value == MovedLower(db, item)
    ensures MoveHigherAsWritten(db, item).Ok? ==> MoveHigherAsWritten(db, item).value == MovedHigher(db, item)
  {
  }

  /** A two-record list: record 1 at position 1, record 2 at position 2. */
  function TwoRecords(): (db: Table)
    ensures DistinctPositions(db) && 1 in db && 2 in db
    ensures Members(db, 0) == {1, 2}
  {
    var db := map[1 := Row(0, Some(1.0)), 2 := Row(0, Some(2.0))];
    assert Members(db, 0) == {1, 2} by {
      forall k ensures k in Members(db, 0) <==> k in {1, 2} {
      }
    }
    db
  }

  /**
   * The last record of a list has no lower item and the first no higher one:
   * move_lower on the last and move_higher on the first fail as written,
   * while the corrected moves leave the table as it is.
   */
  lemma NoNeighbourFailsAsWritten()
    ensures MoveLowerAsWritten(TwoRecords(), 2).Err? && MoveHigherAsWritten(TwoRecords(), 1).Err?
    ensures MovedLower(TwoRecords(), 2) == TwoRecords() && MovedHigher(TwoRecords(), 1) == TwoRecords()
  {
    var db := TwoRecords();
    assert Pos(db, 1) == 1.0 && Pos(db, 2) == 2.0;
    assert forall k | k in Members(db, 0) :: Pos(db, 1) <= Pos(db, k) <= Pos(db, 2);
  }

  /**
   * assume_bottom_position: take the position after the largest one held by
   * another record of the scope; 0 when no other record is in the list; no
   * write when the record already sits below all the others.
   */
  function AssumedBottom(db: Table, item: Id): (r: Table)
    requires DistinctPositions(db) && item in db
    ensures OnlyWrote(db, r, {item}) && InList(r, item)
    ensures DistinctPositions(r)
    ensures forall k | k in Members(r, ScopeOf(r, item)) && k != item :: Pos(r, k) < Pos(r, item)
    ensures BottomPosition(db, ScopeOf(db, item), Some(item)).None? ==> r[item].pos.value == 0.0
    ensures var prior := BottomPosition(db, ScopeOf(db, item), Some(item));
            prior.Some? ==>
              if !InList(db, item) || prior.value > Pos(db, item) then r[item].pos == Some(prior.value + 1.0)
              else r == db
  {
    var s := ScopeOf(db, item);
    var prior := BottomPosition(db, s, Some(item));
    var r :=
      if prior.None? then SetPos(db, item, Some(0.0))
      else if !InList(db, item) || prior.value > Pos(db, item) then SetPos(db, item, Some(prior.value + 1.0))
      else db;
    MembersAfterWrite(db, item, r[item].pos, s);
    WriteKeepsDistinct(db, item, r[item].pos);
    r
  }

  /**
   * assume_top_position: take the position before the smallest one held by
   * another record of the scope; 0 when no other record is in the list; no
   * write when the record already sits above all the others.
   */
  function AssumedTop(db: Table, item: Id): (r: Table)
    requires DistinctPositions(db) && item in db
    ensures OnlyWrote(db, r, {item}) && InList(r, item)
    ensures DistinctPositions(r)
    ensures forall k | k in Members(r, ScopeOf(r, item)) && k != item :: Pos(r, item) < Pos(r, k)
    ensures TopPosition(db, ScopeOf(db, item), Some(item)).None? ==> r[item].pos.value == 0.0
    ensures var prior := TopPosition(db, ScopeOf(db, item), Some(item));
            prior.Some? ==>
              if !InList(db, item) || prior.value < Pos(db, item) then r[item].pos == Some(prior.value - 1.0)
              else r == db
  {
    var s := ScopeOf(db, item);
    var prior := TopPosition(db, s, Some(item));
    var r :=
      if prior.None? then SetPos(db, item, Some(0.0))
      else if !InList(db, item) || prior.value < Pos(db, item) then SetPos(db, item, Some(prior.value - 1.0))
      else db;
    MembersAfterWrite(db, item, r[item].pos, s);
    WriteKeepsDistinct(db, item, r[item].pos);
    r
  }

  /** move_to_bottom: assume the bottom position, for a record in the list only. */
  function MovedToBottom(db: Table, item: Id): (r: Table)
    requires DistinctPositions(db) && item in db
    ensures DistinctPositions(r)
    ensures !InList(db, item) ==> r == db
    ensures InList(db, item) ==> (OnlyWrote(db, r, {item}) && InList(r, item) &&
              forall k | k in Members(r, ScopeOf(r, item)) && k != item :: Pos(r, k) < Pos(r, item))
  {
    if InList(db, item) then AssumedBottom(db, item) else db
  }

  /** move_to_top: assume the top position, for a record in the list only. */
  function MovedToTop(db: Table, item: Id): (r: Table)
    requires DistinctPositions(db) && item in db
    ensures DistinctPositions(r)
    ensures !InList(db, item) ==> r == db
    ensures InList(db, item) ==> (OnlyWrote(db, r, {item}) && InList(r, item) &&
              forall k | k in Members(r, ScopeOf(r, item)) && k != item :: Pos(r, item) < Pos(r, k))
  {
    if InList(db, item) then AssumedTop(db, item) else db
  }

  /** move_to_bottom on the last of several records in the list writes nothing. */
  lemma MoveToBottomWhenLast(db: Table, item: Id)
    requires DistinctPositions(db) && item in db && IsLast(db, item)
    requires exists k | k in Members(db, ScopeOf(db, item)) :: k != item
    ensures MovedToBottom(db, item) == db
  {
    var s := ScopeOf(db, item);
    var k :| k in Members(db, s) && k != item;
    var prior := BottomPosition(db, s, Some(item));
    assert prior.Some?;
    var w :| w in Members(db, s) && Some(w) != Some(item) && Pos(db, w) == prior.value;
    assert db[w].pos != db[item].pos;
  }

  /** move_to_top on the first of several records in the list writes nothing. */
  lemma MoveToTopWhenFirst(db: Table, item: Id)
    requires DistinctPositions(db) && item in db && IsFirst(db, item)
    requires exists k | k in Members(db, ScopeOf(db, item)) :: k != item
    ensures MovedToTop(db, item) == db
  {
    var s := ScopeOf(db, item);
    var k :| k in Members(db, s) && k != item;
    var prior := TopPosition(db, s, Some(item));
    assert prior.Some?;
    var w :| w in Members(db, s) && Some(w) != Some(item) && Pos(db, w) == prior.value;
    assert db[w].pos != db[item].pos;
  }

  /**
   * add_to_list_bottom: give the record the position after the largest one in
   * its scope, or 0 when no record of the scope is in the list. The library
   * queries without excluding the record itself; the method is private and
   * its only callers (before_create and check_scope) run it while the
   * record's own row is not among the rows of that scope, so the extreme of
   * the other records is what it reads.
   */
  function AddedToBottom(db: Table, item: Id): (r: Table)
    requires DistinctPositions(db) && item in db
    ensures OnlyWrote(db, r, {item}) && DistinctPositions(r)
    ensures var prior := BottomPosition(db, ScopeOf(db, item), Some(item));
            r[item].pos == Some(if prior.Some? then prior.value + 1.0 else 0.0)
    ensures IsLast(r, item)
    ensures BottomPosition(db, ScopeOf(db, item), Some(item)).None? ==> IsFirst(r, item)
  {
    var s := ScopeOf(db, item);
    var prior := BottomPosition(db, s, Some(item));
    var p := if prior.Some? then prior.value + 1.0 else 0.0;
    MembersAfterWrite(db, item, Some(p), s);
    WriteKeepsDistinct(db, item, Some(p));
    SetPos(db, item, Some(p))
  }

  /**
   * add_to_list_top: give the record the position before the smallest one in
   * its scope, or 0 when no record of the scope is in the list. As for the
   * bottom, the extreme read is that of the other records of the scope.
   */
  function AddedToTop(db: Table, item: Id): (r: Table)
    requires DistinctPositions(db) && item in db
    ensures OnlyWrote(db, r, {item}) && DistinctPositions(r)
    ensures var prior := TopPosition(db, ScopeOf(db, item), Some(item));
            r[item].pos == Some(if prior.Some? then prior.value - 1.0 else 0.0)
    ensures IsFirst(r, item)
    ensures TopPosition(db, ScopeOf(db, item), Some(item)).None? ==> IsLast(r, item)
  {
    var s := ScopeOf(db, item);
    var prior := TopPosition(db, s, Some(item));
    var p := if prior.Some? then prior.value - 1.0 else 0.0;
    MembersAfterWrite(db, item, Some(p), s);
    WriteKeepsDistinct(db, item, Some(p));
    SetPos(db, item, Some(p))
  }

  /** remove_from_list: clear the position of a record in the list. */
  function Removed(db: Table, item: Id): (r: Table)
    requires DistinctPositions(db) && item in db
    ensures OnlyWrote(db, r, {item}) && !InList(r, item) && DistinctPositions(r)
  {
    WriteKeepsDistinct(db, item, None);
    if InList(db, item) then SetPos(db, item, None) else db
  }

  /** Leaving one record out of a set removes it from the records below any position. */
  lemma BelowWithout(db: Table, S: set<Id>, x: real, item: Id)
    requires AllPositioned(db, S)
    ensures Below(db, S - {item}, x) == Below(db, S, x) - {item}
    ensures |Below(db, S - {item}, x)| == |Below(db, S, x)| - (if item in S && Pos(db, item) < x then 1 else 0)
  {
    forall k ensures k in Below(db, S - {item}, x) <==> k in Below(db, S, x) - {item} {
    }
    if item in S && Pos(db, item) < x {
      assert item in Below(db, S, x);
    } else {
      assert Below(db, S, x) - {item} == Below(db, S, x);
    }
  }

  /** After remove_from_list, the records of a scope below `x` are the old ones less the removed record. */
  lemma RemovedBelow(db: Table, item: Id, s: ScopeKey, x: real)
    requires DistinctPositions(db) && item in db && InList(db, item)
    ensures |Below(Removed(db, item), Members(Removed(db, item), s), x)| ==
            |Below(db, Members(db, s), x)| - (if ScopeOf(db, item) == s && Pos(db, item) < x then 1 else 0)
  {
    var r := Removed(db, item);
    MembersAfterWrite(db, item, None, s);
    BelowWithout(db, Members(db, s), x, item);
    forall j ensures j in Below(r, Members(r, s), x) <==> j in Below(db, Members(db, s) - {item}, x) {
      if j in Members(r, s) {
        assert r[j] == db[j];
      }
    }
    assert Below(r, Members(r, s), x) == Below(db, Members(db, s) - {item}, x);
  }

  /**
   * remove_from_list changes no other position, and every record positioned
   * after the removed one in its scope moves one index up.
   */
  lemma RemoveShiftsIndex(db: Table, item: Id, k: Id, top: int)
    requires DistinctPositions(db) && item in db && k in db && k != item && InList(db, k)
    ensures HasIndex(Removed(db, item), k, top, IndexInList(db, k, top).value -
              (if InList(db, item) && ScopeOf(db, item) == ScopeOf(db, k) && Pos(db, item) < Pos(db, k) then 1 else 0))
  {
    var r := Removed(db, item);
    assert r[k] == db[k];
    IndexCountsHigher(db, k, top);
    IndexCountsHigher(r, k, top);
    if InList(db, item) {
      RemovedBelow(db, item, ScopeOf(db, k), Pos(db, k));
    }
  }
}
