/**
 * The callbacks acts_as_list registers: before_create places a new record
 * at the configured edge of its list, and check_scope (before validation on
 * update) re-adds a record whose scope changed at that edge of its new list.
 */
module Callbacks {
  import opened Wrappers
  import opened Store
  import opened Queries
  import opened Moves

  /** The add_new_at option: :top, :bottom (the default), or nil for not adding new records. */
  datatype NewItems = AtTop | AtBottom | Nowhere

  /** `r` has the records of `db` plus those in `added`, and differs from `db` only at ids in `w`. */
  ghost predicate KeptOthers(db: Table, r: Table, added: set<Id>, w: set<Id>)
  {
    (forall k :: k in r <==> k in db || k in added) &&
    forall k | k in db && k !in w :: k in r && r[k] == db[k]
  }

  /** Two tables whose candidate records for an edge query coincide, with the same positions. */
  ghost predicate SameCandidates(a: Table, ea: Option<Id>, b: Table, eb: Option<Id>, s: ScopeKey)
  {
    Excluding(Members(a, s), ea) == Excluding(Members(b, s), eb) &&
    forall k | k in Excluding(Members(a, s), ea) :: Pos(a, k) == Pos(b, k)
  }

  /** top_position_in_list only depends on the candidate records and their positions. */
  lemma SameTop(a: Table, ea: Option<Id>, b: Table, eb: Option<Id>, s: ScopeKey)
    requires DistinctPositions(a) && DistinctPositions(b) && SameCandidates(a, ea, b, eb, s)
    ensures TopPosition(a, s, ea).None? == TopPosition(b, s, eb).None?
    ensures TopPosition(a, s, ea).Some? ==> TopPosition(a, s, ea).value == TopPosition(b, s, eb).value
  {
    var ta := TopPosition(a, s, ea);
    var tb := TopPosition(b, s, eb);
    var C := Excluding(Members(a, s), ea);
    if ta.None? {
      assert C == {};
      forall k | k in Members(b, s) ensures Some(k) == eb {
        assert k !in Excluding(Members(b, s), eb);
      }
    } else {
      var ka :| ka in Members(a, s) && Some(ka) != ea && Pos(a, ka) == ta.value;
      assert ka in C;
      var kb :| kb in Members(b, s) && Some(kb) != eb && Pos(b, kb) == tb.value;
      assert kb in C;
    }
  }

  /** bottom_position_in_list only depends on the candidate records and their positions. */
  lemma SameBottom(a: Table, ea: Option<Id>, b: Table, eb: Option<Id>, s: ScopeKey)
    requires DistinctPositions(a) && DistinctPositions(b) && SameCandidates(a, ea, b, eb, s)
    ensures BottomPosition(a, s, ea).None? == BottomPosition(b, s, eb).None?
    ensures BottomPosition(a, s, ea).Some? ==> BottomPosition(a, s, ea).value == BottomPosition(b, s, eb).value
  {
    var ta := BottomPosition(a, s, ea);
    var tb := BottomPosition(b, s, eb);
    var C := Excluding(Members(a, s), ea);
    if ta.None? {
      assert C == {};
      forall k | k in Members(b, s) ensures Some(k) == eb {
        assert k !in Excluding(Members(b, s), eb);
      }
    } else {
      var ka :| ka in Members(a, s) && Some(ka) != ea && Pos(a, ka) == ta.value;
      assert ka in C;
      var kb :| kb in Members(b, s) && Some(kb) != eb && Pos(b, kb) == tb.value;
      assert kb in C;
    }
  }

  /** Giving `item` the row `row` leaves the other records of every scope as they were. */
  lemma Relocated(db: Table, item: Id, row: Row, s: ScopeKey)
    requires DistinctPositions(db)
    requires row.pos.Some? ==> forall k | k in Members(db, row.scope) && k != item :: Pos(db, k) != row.pos.value
    ensures DistinctPositions(db[item := row])
    ensures SameCandidates(db[item := row], Some(item), db, Some(item), s)
  {
    var t := db[item := row];
    forall k ensures k in Excluding(Members(t, s), Some(item)) <==> k in Excluding(Members(db, s), Some(item)) {
      if k in db && k != item {
        assert t[k] == db[k];
      }
    }
    forall a, b | a in t && b in t && a != b && t[a].scope == t[b].scope && t[a].pos.Some? && t[b].pos.Some?
      ensures t[a].pos != t[b].pos
    {
      if a != item && b != item {
        assert t[a] == db[a] && t[b] == db[b];
      } else if a == item {
        assert b in Members(db, row.scope);
      } else {
        assert a in Members(db, row.scope);
      }
    }
  }

  /** The edge insertion add_new_at names, applied to `item`. */
  function AddedAtEdge(db: Table, item: Id, at: NewItems): (r: Table)
    requires DistinctPositions(db) && item in db && at != Nowhere
    ensures OnlyWrote(db, r, {item}) && DistinctPositions(r) && InList(r, item)
    ensures at == AtTop ==> IsFirst(r, item)
    ensures at == AtBottom ==> IsLast(r, item)
  {
    if at == AtTop then AddedToTop(db, item) else AddedToBottom(db, item)
  }

  /**
   * check_scope: when the record's scope key changed, it is added at the
   * configured edge of its new list, computed from the records already
   * there. With add_new_at nil there is no add_to_list_ method to call, and
   * the update fails. This is check_scope for a symbol or array scope; a
   * string scope defines scope_changed? as false, so there it never acts.
   */
  function ScopeChanged(db: Table, item: Id, newScope: ScopeKey, at: NewItems): (r: Result<Table, Error>)
    requires DistinctPositions(db) && item in db
    ensures r.Err? <==> ScopeOf(db, item) != newScope && at == Nowhere
    ensures r.Err? ==> r.error == NoAddToListMethod
    ensures ScopeOf(db, item) == newScope ==> r.Ok? && r.value == db
    ensures r.Ok? ==> DistinctPositions(r.value) && KeptOthers(db, r.value, {}, {item})
    ensures r.Ok? ==> item in r.value && ScopeOf(r.value, item) == newScope
    ensures ScopeOf(db, item) != newScope && at == AtBottom ==>
              (r.Ok? && IsLast(r.value, item) &&
               var prior := BottomPosition(db, newScope, Some(item));
               Pos(r.value, item) == if prior.Some? then prior.value + 1.0 else 0.0)
    ensures ScopeOf(db, item) != newScope && at == AtTop ==>
              (r.Ok? && IsFirst(r.value, item) &&
               var prior := TopPosition(db, newScope, Some(item));
               Pos(r.value, item) == if prior.Some? then prior.value - 1.0 else 0.0)
  {
    if ScopeOf(db, item) == newScope then Ok(db)
    else if at == Nowhere then Err(NoAddToListMethod)
    else
      var t := db[item := Row(newScope, None)];
      Relocated(db, item, Row(newScope, None), newScope);
      SameTop(t, Some(item), db, Some(item), newScope);
      SameBottom(t, Some(item), db, Some(item), newScope);
      Ok(AddedAtEdge(t, item, at))
  }

  /**
   * check_scope leaves every record of the old list where it was: their
   * positions, and so their order, do not change.
   */
  lemma ScopeChangeKeepsOldList(db: Table, item: Id, newScope: ScopeKey, at: NewItems)
    requires DistinctPositions(db) && item in db && ScopeOf(db, item) != newScope && at != Nowhere
    ensures Members(ScopeChanged(db, item, newScope, at).value, ScopeOf(db, item)) == Members(db, ScopeOf(db, item)) - {item}
  {
    var s := ScopeOf(db, item);
    var r := ScopeChanged(db, item, newScope, at).value;
    forall k ensures k in Members(r, s) <==> k in Members(db, s) - {item} {
      if k in db && k != item {
        assert r[k] == db[k];
      }
    }
  }

  /**
   * before_create: a record created without a position is added at the
   * configured edge of its list; one created with a position, or with
   * add_new_at nil, is stored as given. A position given on create must not
   * be one the list already uses. For a symbol or array scope the library
   * declares a uniqueness validation of the position column that refuses
   * such a record; a string scope gets no validation.
   */
  function Created(db: Table, item: Id, row: Row, at: NewItems): (r: Table)
    requires DistinctPositions(db) && item !in db
    requires row.pos.Some? ==> forall k | k in Members(db, row.scope) :: Pos(db, k) != row.pos.value
    ensures DistinctPositions(r) && KeptOthers(db, r, {item}, {})
    ensures item in r && r[item].scope == row.scope
    ensures row.pos.Some? || at == Nowhere ==> r[item] == row
    ensures row.pos.None? && at == AtBottom ==>
              (IsLast(r, item) &&
               var prior := BottomPosition(db, row.scope, None);
               Pos(r, item) == if prior.Some? then prior.value + 1.0 else 0.0)
    ensures row.pos.None? && at == AtTop ==>
              (IsFirst(r, item) &&
               var prior := TopPosition(db, row.scope, None);
               Pos(r, item) == if prior.Some? then prior.value - 1.0 else 0.0)
  {
    var t := db[item := row];
    Relocated(db, item, row, row.scope);
    if row.pos.Some? || at == Nowhere then t
    else
      assert SameCandidates(db, Some(item), db, None, row.scope);
      SameTop(t, Some(item), db, None, row.scope);
      SameBottom(t, Some(item), db, None, row.scope);
      AddedAtEdge(t, item, at)
  }
}
