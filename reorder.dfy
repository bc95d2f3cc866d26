/**
 * update_ordered_list: the bulk reorder of one scope. The requested id list
 * is first sanitised against the scope's current order; then, slot by slot,
 * the record requested at slot i receives the position the current order
 * holds at slot i.
 */
module BulkReorder {
  import opened Wrappers
  import opened Store
  import opened Queries
  import opened Moves

  /** `a` is `b` with some entries left out. */
  predicate Subsequence(a: seq<Id>, b: seq<Id>)
    decreases |b|
  {
    if a == [] then true
    else if b == [] then false
    else if a[|a| - 1] == b[|b| - 1] then Subsequence(a[..|a| - 1], b[..|b| - 1])
    else Subsequence(a, b[..|b| - 1])
  }

  /**
   * Ruby's `req & cur`: the ids of `req` that are also in `cur`, each once,
   * where it first occurs in `req`.
   */
  function Intersect(req: seq<Id>, cur: seq<Id>): seq<Id>
    decreases |req|
  {
    if req == [] then []
    else
      var p := Intersect(req[..|req| - 1], cur);
      var x := req[|req| - 1];
      if x in cur && x !in p then p + [x] else p
  }

  /**
   * The ids of `r` come in the order of their first occurrences in `req`:
   * wherever a later id of `r` occurs in `req`, an earlier one occurs before.
   */
  predicate FirstOccurrenceOrder(r: seq<Id>, req: seq<Id>)
  {
    forall i, j, k | 0 <= i < j < |r| && 0 <= k < |req| && req[k] == r[j] :: r[i] in req[..k]
  }

  /**
   * `req & cur` lists each requested id known to `cur` once, in the order of
   * its first occurrence in the request.
   */
  lemma IntersectFacts(req: seq<Id>, cur: seq<Id>)
    ensures var r := Intersect(req, cur);
            NoDuplicates(r) && Elems(r) == Elems(req) * Elems(cur) && Subsequence(r, req) &&
            FirstOccurrenceOrder(r, req)
  {
    IntersectElems(req, cur);
    IntersectNoDuplicates(req, cur);
    IntersectSubsequence(req, cur);
    IntersectFirstOccurrence(req, cur);
  }

  lemma {:induction false} IntersectFirstOccurrence(req: seq<Id>, cur: seq<Id>)
    ensures FirstOccurrenceOrder(Intersect(req, cur), req)
    decreases |req|
  {
    if req != [] {
      var init := req[..|req| - 1];
      var x := req[|req| - 1];
      var p := Intersect(init, cur);
      var r := Intersect(req, cur);
      IntersectFirstOccurrence(init, cur);
      IntersectElems(init, cur);
      assert x in cur && x !in p ==> r == p + [x] && x !in Elems(init) by {
        assert x !in p ==> x !in Elems(p);
      }
      assert !(x in cur && x !in p) ==> r == p;
      forall i, j, k | 0 <= i < j < |r| && 0 <= k < |req| && req[k] == r[j]
        ensures r[i] in req[..k]
      {
        assert r[i] == p[i] && r[i] in Elems(p);
        if k < |init| {
          assert req[k] == init[k] && req[..k] == init[..k];
        } else {
          assert req[..k] == init;
        }
      }
    }
  }

  /**
   * A repeated requested id is kept where it first occurs: `[2, 1, 2] & [1, 2]`
   * is `[2, 1]`, and the other order of the same ids breaks FirstOccurrenceOrder.
   */
  lemma RepeatedRequestKeepsFirst()
    ensures Intersect([2, 1, 2], [1, 2]) == [2, 1]
    ensures FirstOccurrenceOrder([2, 1], [2, 1, 2])
    ensures !FirstOccurrenceOrder([1, 2], [2, 1, 2])
  {
    var cur: seq<Id> := [1, 2];
    assert [2, 1, 2][..2] == [2, 1] && [2, 1][..1] == [2] && [2][..0] == [];
    assert Intersect([2], cur) == [2];
    assert Intersect([2, 1], cur) == [2, 1];
    IntersectFirstOccurrence([2, 1, 2], cur);
    var req: seq<Id> := [2, 1, 2];
    var r: seq<Id> := [1, 2];
    assert req[0] == r[1] && r[0] !in req[..0];
  }

  lemma {:induction false} IntersectElems(req: seq<Id>, cur: seq<Id>)
    ensures Elems(Intersect(req, cur)) == Elems(req) * Elems(cur)
    decreases |req|
  {
    if req != [] {
      var init := req[..|req| - 1];
      var x := req[|req| - 1];
      var p := Intersect(init, cur);
      IntersectElems(init, cur);
      assert Elems(req) == Elems(init) + {x} by {
        assert req == init + [x];
      }
      ElemsConcat(p, [x]);
    }
  }

  lemma {:induction false} IntersectNoDuplicates(req: seq<Id>, cur: seq<Id>)
    ensures NoDuplicates(Intersect(req, cur))
    decreases |req|
  {
    if req != [] {
      var p := Intersect(req[..|req| - 1], cur);
      IntersectNoDuplicates(req[..|req| - 1], cur);
      SnocNoDuplicates(p, req[|req| - 1]);
    }
  }

  lemma {:induction false} IntersectSubsequence(req: seq<Id>, cur: seq<Id>)
    ensures Subsequence(Intersect(req, cur), req)
    decreases |req|
  {
    if req != [] {
      var init := req[..|req| - 1];
      var x := req[|req| - 1];
      var p := Intersect(init, cur);
      IntersectSubsequence(init, cur);
      if x in cur && x !in p {
        assert (p + [x])[..|p|] == p;
      } else {
        SubsequenceExtends(p, init, x);
        assert init + [x] == req;
      }
    }
  }

  /** A subsequence of `b` is a subsequence of `b` with one more entry. */
  lemma {:induction false} SubsequenceExtends(a: seq<Id>, b: seq<Id>, x: Id)
    requires Subsequence(a, b)
    ensures Subsequence(a, b + [x])
    decreases |b|, 1
  {
    if a != [] && a[|a| - 1] == x {
      assert (b + [x])[..|b|] == b;
      SubsequenceDropLast(a, b);
    } else {
      assert (b + [x])[..|b|] == b;
    }
  }

  /** Leaving out the last entry of a subsequence keeps it a subsequence. */
  lemma {:induction false} SubsequenceDropLast(a: seq<Id>, b: seq<Id>)
    requires a != [] && Subsequence(a, b)
    ensures Subsequence(a[..|a| - 1], b)
    decreases |b|, 0
  {
    var a' := a[..|a| - 1];
    if a[|a| - 1] == b[|b| - 1] {
      SubsequenceExtends(a', b[..|b| - 1], b[|b| - 1]);
      assert b[..|b| - 1] + [b[|b| - 1]] == b;
    } else {
      SubsequenceDropLast(a, b[..|b| - 1]);
      SubsequenceExtends(a', b[..|b| - 1], b[|b| - 1]);
      assert b[..|b| - 1] + [b[|b| - 1]] == b;
    }
  }

  /** The entries of a concatenation. */
  lemma ElemsConcat(a: seq<Id>, b: seq<Id>)
    ensures Elems(a + b) == Elems(a) + Elems(b)
  {
    forall k | k in Elems(a) + Elems(b) ensures k in Elems(a + b) {
      if k in a {
        var i :| 0 <= i < |a| && a[i] == k;
        assert (a + b)[i] == k;
      } else {
        var i :| 0 <= i < |b| && b[i] == k;
        assert (a + b)[|a| + i] == k;
      }
    }
  }

  /** Putting an id not yet listed in front keeps a list free of duplicates. */
  lemma ConsNoDuplicates(x: Id, s: seq<Id>)
    requires NoDuplicates(s) && x !in Elems(s)
    ensures NoDuplicates([x] + s)
  {
    forall i, j | 0 <= i < j < |s| + 1 ensures ([x] + s)[i] != ([x] + s)[j] {
      if i == 0 {
        assert s[j - 1] in Elems(s);
      } else {
        assert s[i - 1] != s[j - 1];
      }
    }
  }

  /** Ruby's `cur - ex`: the entries of `cur` not in `ex`, in the order of `cur`. */
  function Difference(cur: seq<Id>, ex: seq<Id>): seq<Id>
    decreases |cur|
  {
    if cur == [] then []
    else
      var p := Difference(cur[..|cur| - 1], ex);
      var x := cur[|cur| - 1];
      if x in ex then p else p + [x]
  }

  /** `cur - ex` keeps the entries of `cur` outside `ex`, in their order. */
  lemma DifferenceFacts(cur: seq<Id>, ex: seq<Id>)
    ensures var r := Difference(cur, ex);
            Elems(r) == Elems(cur) - Elems(ex) && (NoDuplicates(cur) ==> NoDuplicates(r)) && Subsequence(r, cur)
  {
    DifferenceElems(cur, ex);
    if NoDuplicates(cur) {
      DifferenceNoDuplicates(cur, ex);
    }
    DifferenceSubsequence(cur, ex);
  }

  lemma {:induction false} DifferenceElems(cur: seq<Id>, ex: seq<Id>)
    ensures Elems(Difference(cur, ex)) == Elems(cur) - Elems(ex)
    decreases |cur|
  {
    if cur != [] {
      var init := cur[..|cur| - 1];
      var x := cur[|cur| - 1];
      DifferenceElems(init, ex);
      assert Elems(cur) == Elems(init) + {x} by {
        assert cur == init + [x];
      }
      ElemsConcat(Difference(init, ex), [x]);
    }
  }

  lemma {:induction false} DifferenceNoDuplicates(cur: seq<Id>, ex: seq<Id>)
    requires NoDuplicates(cur)
    ensures NoDuplicates(Difference(cur, ex))
    decreases |cur|
  {
    if cur != [] {
      var init := cur[..|cur| - 1];
      var x := cur[|cur| - 1];
      forall i, j | 0 <= i < j < |init| ensures init[i] != init[j] {
        assert cur[i] != cur[j];
      }
      DifferenceNoDuplicates(init, ex);
      DifferenceElems(init, ex);
      forall i | 0 <= i < |init| ensures init[i] != x {
        assert cur[i] != cur[|cur| - 1];
      }
      SnocNoDuplicates(Difference(init, ex), x);
    }
  }

  lemma {:induction false} DifferenceSubsequence(cur: seq<Id>, ex: seq<Id>)
    ensures Subsequence(Difference(cur, ex), cur)
    decreases |cur|
  {
    if cur != [] {
      var init := cur[..|cur| - 1];
      var x := cur[|cur| - 1];
      var p := Difference(init, ex);
      DifferenceSubsequence(init, ex);
      if x in ex {
        SubsequenceExtends(p, init, x);
        assert init + [x] == cur;
      } else {
        assert (p + [x])[..|p|] == p;
      }
    }
  }

  /** Appending an id not yet listed keeps a list free of duplicates. */
  lemma SnocNoDuplicates(s: seq<Id>, x: Id)
    ensures NoDuplicates(s) && x !in Elems(s) ==> NoDuplicates(s + [x])
  {
    if NoDuplicates(s) && x !in Elems(s) {
      forall i, j | 0 <= i < j < |s| + 1 ensures (s + [x])[i] != (s + [x])[j] {
        if j == |s| {
          assert s[i] in Elems(s);
        } else {
          assert s[i] != s[j];
        }
      }
    }
  }

  /** Two lists free of duplicates and with no id in common concatenate to one free of duplicates. */
  lemma ConcatNoDuplicates(a: seq<Id>, b: seq<Id>)
    requires NoDuplicates(a) && NoDuplicates(b) && Elems(a) * Elems(b) == {}
    ensures NoDuplicates(a + b)
  {
    forall i, j | 0 <= i < j < |a| + |b| ensures (a + b)[i] != (a + b)[j] {
      if j < |a| {
        assert a[i] != a[j];
      } else if |a| <= i {
        assert b[i - |a|] != b[j - |a|];
      } else {
        var x := a[i];
        assert x in Elems(a);
        assert x !in Elems(b) by {
          assert x !in Elems(a) * Elems(b);
        }
        assert b[j - |a|] in Elems(b);
      }
    }
  }

  /** The sanitised request: `req & cur`, then the ids of `cur` it misses. */
  function Sanitized(req: seq<Id>, cur: seq<Id>): (r: seq<Id>)
  {
    var known := Intersect(req, cur);
    known + Difference(cur, known)
  }

  /**
   * The sanitised request is a permutation of the current order: every
   * current id exactly once, whatever was asked for.
   */
  lemma SanitizedPermutes(req: seq<Id>, cur: seq<Id>)
    requires NoDuplicates(cur)
    ensures NoDuplicates(Sanitized(req, cur))
    ensures Elems(Sanitized(req, cur)) == Elems(cur)
    ensures |Sanitized(req, cur)| == |cur|
  {
    var known := Intersect(req, cur);
    var rest := Difference(cur, known);
    var r := known + rest;
    IntersectFacts(req, cur);
    DifferenceFacts(cur, known);
    assert Elems(known) * Elems(rest) == {};
    ConcatNoDuplicates(known, rest);
    ElemsConcat(known, rest);
    assert Elems(r) == Elems(cur);
    ElemsCard(r);
    ElemsCard(cur);
  }

  /**
   * The sanitised request starts with the known requested ids, in the
   * order they were first requested, and goes on with the current ids that
   * were not requested, in their current order.
   */
  lemma SanitizedShape(req: seq<Id>, cur: seq<Id>)
    ensures var n := |Elems(req) * Elems(cur)|;
            n <= |Sanitized(req, cur)| &&
            Subsequence(Sanitized(req, cur)[..n], req) &&
            FirstOccurrenceOrder(Sanitized(req, cur)[..n], req) &&
            Elems(Sanitized(req, cur)[..n]) == Elems(req) * Elems(cur) &&
            Subsequence(Sanitized(req, cur)[n..], cur) &&
            Elems(Sanitized(req, cur)[n..]) == Elems(cur) - Elems(req)
  {
    var known := Intersect(req, cur);
    var rest := Difference(cur, known);
    IntersectFacts(req, cur);
    DifferenceElems(cur, known);
    DifferenceSubsequence(cur, known);
    ElemsCard(known);
    assert |Elems(req) * Elems(cur)| == |known|;
    assert Elems(cur) - Elems(known) == Elems(cur) - Elems(req);
    assert Sanitized(req, cur)[..|known|] == known;
    assert Sanitized(req, cur)[|known|..] == rest;
  }

  /** A request that already lists every current id once is kept as it is. */
  lemma {:induction false} IntersectAll(req: seq<Id>, cur: seq<Id>)
    requires NoDuplicates(req) && Elems(req) <= Elems(cur)
    ensures Intersect(req, cur) == req
    decreases |req|
  {
    if req != [] {
      var init := req[..|req| - 1];
      var x := req[|req| - 1];
      assert NoDuplicates(init) by {
        forall i, j | 0 <= i < j < |init| ensures init[i] != init[j] {
          assert req[i] != req[j];
        }
      }
      assert Elems(init) <= Elems(req);
      IntersectAll(init, cur);
      IntersectFacts(init, cur);
      assert x in Elems(req);
      assert x !in init by {
        forall i | 0 <= i < |init| ensures init[i] != x {
          assert req[i] != req[|req| - 1];
        }
      }
      assert init + [x] == req;
    }
  }

  /** Nothing is left out of a list by removing the ids of the empty list. */
  lemma {:induction false} DifferenceNothing(cur: seq<Id>)
    ensures Difference(cur, []) == cur
    decreases |cur|
  {
    if cur != [] {
      DifferenceNothing(cur[..|cur| - 1]);
      assert cur[..|cur| - 1] + [cur[|cur| - 1]] == cur;
    }
  }

  /** A permutation of the current order is returned unchanged. */
  lemma SanitizedKeepsPermutation(req: seq<Id>, cur: seq<Id>)
    requires NoDuplicates(req) && Elems(req) == Elems(cur)
    ensures Sanitized(req, cur) == req
  {
    IntersectAll(req, cur);
    DifferenceFacts(cur, req);
    NothingLeft(Difference(cur, req));
  }

  /** Only the empty list has no entries. */
  lemma NothingLeft(s: seq<Id>)
    ensures Elems(s) == {} ==> s == []
  {
    if s != [] {
      assert s[0] in Elems(s);
    }
  }

  /** An empty request keeps the current order. */
  lemma SanitizedEmpty(cur: seq<Id>)
    ensures Sanitized([], cur) == cur
  {
    DifferenceNothing(cur);
  }

  /** An unknown id at the head of the request is dropped. */
  lemma {:induction false} UnknownHeadDropped(x: Id, req: seq<Id>, cur: seq<Id>)
    requires x !in cur
    ensures Intersect([x] + req, cur) == Intersect(req, cur)
    decreases |req|
  {
    if req == [] {
      assert ([x] + req)[..0] == [];
    } else {
      var init := req[..|req| - 1];
      UnknownHeadDropped(x, init, cur);
      assert ([x] + req)[..|req|] == [x] + init;
    }
  }

  /** test_when_the_user_provides_nonexistent_elements: [5, 4, 3, 2, 1] over [1, 2, 3, 4] gives [4, 3, 2, 1]. */
  lemma UnknownIdsDropped()
    ensures Sanitized([5, 4, 3, 2, 1], [1, 2, 3, 4]) == [4, 3, 2, 1]
  {
    var cur := [1, 2, 3, 4];
    UnknownHeadDropped(5, [4, 3, 2, 1], cur);
    assert [5] + [4, 3, 2, 1] == [5, 4, 3, 2, 1];
    IntersectAll([4, 3, 2, 1], cur);
    SanitizedKeepsKnown([5, 4, 3, 2, 1], [4, 3, 2, 1], cur);
  }

  /** test_when_the_user_does_not_provide_a_complete_reordering: [4, 2, 1] over [1, 2, 3, 4] gives [4, 2, 1, 3]. */
  lemma MissingIdsAppended()
    ensures Sanitized([4, 2, 1], [1, 2, 3, 4]) == [4, 2, 1, 3]
  {
    KnownPrefixThenOne([4, 2, 1], [1, 2, 3, 4], 3);
  }

  /** The same test with new items added at the top: [1, 4, 3] over [4, 3, 2, 1] gives [1, 4, 3, 2]. */
  lemma MissingIdsAppendedTopAddition()
    ensures Sanitized([1, 4, 3], [4, 3, 2, 1]) == [1, 4, 3, 2]
  {
    KnownPrefixThenOne([1, 4, 3], [4, 3, 2, 1], 2);
  }

  /** A request of known ids, each once, that misses exactly the current id `x` gets `x` appended. */
  lemma KnownPrefixThenOne(req: seq<Id>, cur: seq<Id>, x: Id)
    requires NoDuplicates(req) && NoDuplicates(cur) && Elems(cur) == Elems(req) + {x} && x !in req
    ensures Sanitized(req, cur) == req + [x]
  {
    IntersectAll(req, cur);
    var rest := Difference(cur, req);
    DifferenceFacts(cur, req);
    assert Elems(rest) == {x};
    ElemsCard(rest);
    assert rest[0] in Elems(rest);
    assert rest == [x];
  }

  /** For a request whose known part is a permutation `perm` of the current order, the result is `perm`. */
  lemma SanitizedKeepsKnown(req: seq<Id>, perm: seq<Id>, cur: seq<Id>)
    requires Intersect(req, cur) == perm && NoDuplicates(perm) && Elems(perm) == Elems(cur)
    ensures Sanitized(req, cur) == perm
  {
    DifferenceFacts(cur, perm);
    NothingLeft(Difference(cur, perm));
  }

  /** Every record of scope `s` has a position, as the sort of the current ids needs. */
  predicate AllInList(db: Table, s: ScopeKey)
  {
    forall k | k in db && db[k].scope == s :: db[k].pos.Some?
  }

  /**
   * The writes update_ordered_list plans: at each slot where the requested
   * id differs from the current one, the requested id is to receive the
   * current id's position; no other id is written.
   */
  ghost predicate PlanOf(db: Table, newIds: seq<Id>, curIds: seq<Id>, upd: map<Id, real>)
    requires |newIds| == |curIds| && forall i | 0 <= i < |curIds| :: Positioned(db, curIds[i])
  {
    (forall i | 0 <= i < |newIds| && newIds[i] != curIds[i] ::
       newIds[i] in upd && upd[newIds[i]] == Pos(db, curIds[i])) &&
    (forall k | k in upd :: exists i | 0 <= i < |newIds| :: newIds[i] == k && newIds[i] != curIds[i])
  }

  /** The zip loop of update_ordered_list, building the hash of updated positions. */
  method PlanUpdates(db: Table, newIds: seq<Id>, curIds: seq<Id>) returns (upd: map<Id, real>)
    requires |newIds| == |curIds| && NoDuplicates(newIds)
    requires forall i | 0 <= i < |curIds| :: Positioned(db, curIds[i])
    ensures PlanOf(db, newIds, curIds, upd)
  {
    upd := map[];
    var i := 0;
    while i < |newIds|
      invariant 0 <= i <= |newIds|
      invariant forall j | 0 <= j < i && newIds[j] != curIds[j] ::
                  newIds[j] in upd && upd[newIds[j]] == Pos(db, curIds[j])
      invariant forall k | k in upd :: exists j | 0 <= j < i :: newIds[j] == k && newIds[j] != curIds[j]
    {
      if newIds[i] != curIds[i] {
        upd := upd[newIds[i] := Pos(db, curIds[i])];
      }
      i := i + 1;
    }
  }

  /** The table after the transaction writes every planned position. */
  function Applied(db: Table, upd: map<Id, real>): (r: Table)
    ensures forall k :: k in r <==> k in db
    ensures forall k | k in db :: r[k].scope == db[k].scope
    ensures forall k | k in db && k in upd :: r[k].pos == Some(upd[k])
    ensures forall k | k in db && k !in upd :: r[k] == db[k]
  {
    map k | k in db :: if k in upd then Row(db[k].scope, Some(upd[k])) else db[k]
  }

  /** What the bulk reorder of scope `s` is asked to do: a permutation of its current order and the plan for it. */
  ghost predicate Reordering(db: Table, s: ScopeKey, newIds: seq<Id>, upd: map<Id, real>)
  {
    DistinctPositions(db) && AllInList(db, s) &&
    NoDuplicates(newIds) && Elems(newIds) == Elems(Order(db, s)) && |newIds| == |Order(db, s)| &&
    PlanOf(db, newIds, Order(db, s), upd)
  }

  /** After the writes, the id requested at slot `i` holds the position the current order has at slot `i`. */
  lemma SlotPosition(db: Table, s: ScopeKey, newIds: seq<Id>, upd: map<Id, real>, i: int)
    requires Reordering(db, s, newIds, upd) && 0 <= i < |newIds|
    ensures Positioned(Applied(db, upd), newIds[i])
    ensures Pos(Applied(db, upd), newIds[i]) == Pos(db, Order(db, s)[i])
    ensures newIds[i] == Order(db, s)[i] ==> newIds[i] !in upd
  {
    var o := Order(db, s);
    assert newIds[i] in Elems(o);
    assert newIds[i] in Members(db, s);
    if newIds[i] == o[i] {
      forall j | 0 <= j < |newIds| && newIds[j] == newIds[i] ensures newIds[j] == o[j] {
        assert j == i;
      }
    }
  }

  /** The planned ids are all records of the reordered scope. */
  lemma PlanInScope(db: Table, s: ScopeKey, newIds: seq<Id>, upd: map<Id, real>)
    requires Reordering(db, s, newIds, upd)
    ensures forall k | k in upd :: k in Members(db, s)
  {
    forall k | k in upd ensures k in Members(db, s) {
      var i :| 0 <= i < |newIds| && newIds[i] == k && newIds[i] != Order(db, s)[i];
      assert k in Elems(Order(db, s));
    }
  }

  /** The writes keep every record where it was listed: the scope's list has the same records. */
  lemma AppliedMembers(db: Table, s: ScopeKey, newIds: seq<Id>, upd: map<Id, real>)
    requires Reordering(db, s, newIds, upd)
    ensures Members(Applied(db, upd), s) == Members(db, s)
    ensures forall k | k in db && db[k].scope != s :: Applied(db, upd)[k] == db[k]
  {
    var r := Applied(db, upd);
    PlanInScope(db, s, newIds, upd);
    forall k ensures k in Members(r, s) <==> k in Members(db, s) {
    }
  }

  /** Listing `newIds` is ascending after the writes. */
  lemma AppliedAscending(db: Table, s: ScopeKey, newIds: seq<Id>, upd: map<Id, real>)
    requires Reordering(db, s, newIds, upd)
    ensures Ascending(Applied(db, upd), newIds)
  {
    var r := Applied(db, upd);
    var o := Order(db, s);
    forall i | 0 <= i < |newIds| ensures Positioned(r, newIds[i]) && Pos(r, newIds[i]) == Pos(db, o[i]) {
      SlotPosition(db, s, newIds, upd, i);
    }
  }

  /** The writes keep positions distinct: the scope's positions are dealt out again, one per record. */
  lemma AppliedDistinct(db: Table, s: ScopeKey, newIds: seq<Id>, upd: map<Id, real>)
    requires Reordering(db, s, newIds, upd)
    ensures DistinctPositions(Applied(db, upd))
  {
    var r := Applied(db, upd);
    AppliedMembers(db, s, newIds, upd);
    AppliedAscending(db, s, newIds, upd);
    forall a, b | a in r && b in r && a != b && r[a].scope == r[b].scope && r[a].pos.Some? && r[b].pos.Some?
      ensures r[a].pos != r[b].pos
    {
      if r[a].scope == s {
        assert a in Members(r, s) && b in Members(r, s);
        assert a in Elems(newIds) && b in Elems(newIds);
        var i :| 0 <= i < |newIds| && newIds[i] == a;
        var j :| 0 <= j < |newIds| && newIds[j] == b;
        assert Pos(r, a) != Pos(r, b) by {
          if i < j {
            assert Pos(r, newIds[i]) < Pos(r, newIds[j]);
          } else {
            assert Pos(r, newIds[j]) < Pos(r, newIds[i]);
          }
        }
      } else {
        assert r[a] == db[a] && r[b] == db[b];
      }
    }
  }

  /**
   * The transaction leaves the scope ordered exactly as requested, with the
   * same set of positions as before, every other scope untouched, and no
   * write to an id whose slot already matched.
   */
  lemma ZipWriteSortsRequested(db: Table, s: ScopeKey, newIds: seq<Id>, upd: map<Id, real>)
    requires Reordering(db, s, newIds, upd)
    ensures DistinctPositions(Applied(db, upd))
    ensures Order(Applied(db, upd), s) == newIds
    ensures ScopePositions(Applied(db, upd), s) == ScopePositions(db, s)
    ensures forall i | 0 <= i < |newIds| && newIds[i] == Order(db, s)[i] :: newIds[i] !in upd
    ensures forall k | k in db && db[k].scope != s :: Applied(db, upd)[k] == db[k]
  {
    var r := Applied(db, upd);
    AppliedMembers(db, s, newIds, upd);
    AppliedDistinct(db, s, newIds, upd);
    AppliedAscending(db, s, newIds, upd);
    AppliedOrder(db, s, newIds, upd);
    AppliedPositions(db, s, newIds, upd);
    forall i | 0 <= i < |newIds| && newIds[i] == Order(db, s)[i] ensures newIds[i] !in upd {
      SlotPosition(db, s, newIds, upd, i);
    }
  }

  /** Ascending order is unique, so the scope's order after the writes is the requested one. */
  lemma AppliedOrder(db: Table, s: ScopeKey, newIds: seq<Id>, upd: map<Id, real>)
    requires Reordering(db, s, newIds, upd)
    ensures DistinctPositions(Applied(db, upd)) && Order(Applied(db, upd), s) == newIds
  {
    var r := Applied(db, upd);
    AppliedMembers(db, s, newIds, upd);
    AppliedDistinct(db, s, newIds, upd);
    AppliedAscending(db, s, newIds, upd);
    MembersRanked(r, s);
    assert Lists(newIds, Members(r, s)) by {
      forall i | 0 <= i < |newIds| ensures newIds[i] in Members(r, s) {
        assert newIds[i] in Elems(newIds);
      }
      forall k | k in Members(r, s) ensures k in newIds {
        assert k in Elems(newIds);
      }
    }
    SortedUnique(r, Members(r, s), newIds);
  }

  /** The scope holds the same set of positions after the writes. */
  lemma AppliedPositions(db: Table, s: ScopeKey, newIds: seq<Id>, upd: map<Id, real>)
    requires Reordering(db, s, newIds, upd)
    ensures ScopePositions(Applied(db, upd), s) == ScopePositions(db, s)
  {
    var r := Applied(db, upd);
    var o := Order(db, s);
    AppliedMembers(db, s, newIds, upd);
    forall p | p in ScopePositions(r, s) ensures p in ScopePositions(db, s) {
      var k :| k in Members(r, s) && Pos(r, k) == p;
      assert k in Elems(newIds);
      var i :| 0 <= i < |newIds| && newIds[i] == k;
      SlotPosition(db, s, newIds, upd, i);
      assert o[i] in Members(db, s);
    }
    forall p | p in ScopePositions(db, s) ensures p in ScopePositions(r, s) {
      var k :| k in Members(db, s) && Pos(db, k) == p;
      assert k in o;
      var i :| 0 <= i < |o| && o[i] == k;
      SlotPosition(db, s, newIds, upd, i);
      assert newIds[i] in Elems(newIds);
    }
  }
}
