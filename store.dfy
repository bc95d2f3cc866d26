/**
 * The position store: every record of the list's table, keyed by id, with
 * its scope key and its optional position. Positions are exact reals; a
 * record whose position is absent is "not in the list".
 *
 * This module also gives the order of a set of records by ascending
 * position (what the database does for ORDER BY position), together with the
 * facts about that order the rest of the model builds on.
 */
module Store {
  import opened Wrappers

  type Id = int

  /** The value of the list's scope column(s); only compared for equality. */
  type ScopeKey = int

  datatype Row = Row(scope: ScopeKey, pos: Option<real>)

  type Table = map<Id, Row>

  predicate Positioned(db: Table, k: Id)
  {
    k in db && db[k].pos.Some?
  }

  function Pos(db: Table, k: Id): real
    requires Positioned(db, k)
  {
    db[k].pos.value
  }

  /** The records of scope `s` that are in the list. */
  function Members(db: Table, s: ScopeKey): (m: set<Id>)
    ensures forall k | k in m :: Positioned(db, k) && db[k].scope == s
    ensures forall k | k in db && db[k].scope == s && db[k].pos.Some? :: k in m
  {
    set k | k in db && db[k].scope == s && db[k].pos.Some?
  }

  /** No two records of one scope hold the same position. */
  ghost predicate DistinctPositions(db: Table)
  {
    forall a, b | a in db && b in db && a != b && db[a].scope == db[b].scope
                  && db[a].pos.Some? && db[b].pos.Some? :: db[a].pos != db[b].pos
  }

  predicate AllPositioned(db: Table, S: set<Id>)
  {
    forall k | k in S :: Positioned(db, k)
  }

  /** Every record of `S` has a position, and no two share one. */
  ghost predicate Ranked(db: Table, S: set<Id>)
  {
    AllPositioned(db, S) &&
    forall a, b | a in S && b in S && a != b :: Pos(db, a) != Pos(db, b)
  }

  lemma MembersRanked(db: Table, s: ScopeKey)
    requires DistinctPositions(db)
    ensures Ranked(db, Members(db, s))
  {
    var m := Members(db, s);
    forall a, b | a in m && b in m && a != b
      ensures Pos(db, a) != Pos(db, b)
    {
      assert db[a].pos != db[b].pos;
    }
  }

  lemma RankedSubset(db: Table, S: set<Id>, T: set<Id>)
    requires Ranked(db, S) && T <= S
    ensures Ranked(db, T)
  {
  }

  /** The records of `S` positioned strictly before `x`. */
  function Below(db: Table, S: set<Id>, x: real): (b: set<Id>)
    requires AllPositioned(db, S)
    ensures b <= S
  {
    set k | k in S && Pos(db, k) < x
  }

  /** The records of `S` positioned strictly after `x`. */
  function Above(db: Table, S: set<Id>, x: real): (a: set<Id>)
    requires AllPositioned(db, S)
    ensures a <= S
  {
    set k | k in S && Pos(db, k) > x
  }

  predicate IsLeast(db: Table, S: set<Id>, m: Id)
    requires AllPositioned(db, S)
  {
    m in S && forall k | k in S :: Pos(db, m) <= Pos(db, k)
  }

  predicate IsGreatest(db: Table, S: set<Id>, m: Id)
    requires AllPositioned(db, S)
  {
    m in S && forall k | k in S :: Pos(db, k) <= Pos(db, m)
  }

  /** A non-empty set has an element. */
  lemma Pick(S: set<Id>)
    requires S != {}
    ensures exists k :: k in S
  {
    if forall k :: k !in S {
      assert false;
    }
  }

  lemma {:induction false} LeastExists(db: Table, S: set<Id>)
    requires S != {} && AllPositioned(db, S)
    ensures exists m :: IsLeast(db, S, m)
    decreases |S|
  {
    Pick(S);
    var x :| x in S;
    var rest := S - {x};
    if y :| y in rest {
      LeastExists(db, rest);
      var m :| IsLeast(db, rest, m);
      if Pos(db, x) <= Pos(db, m) {
        assert IsLeast(db, S, x);
      } else {
        assert IsLeast(db, S, m);
      }
    } else {
      forall k | k in S ensures Pos(db, x) <= Pos(db, k) {
        assert k == x || k in rest;
      }
      assert IsLeast(db, S, x);
    }
  }

  lemma {:induction false} GreatestExists(db: Table, S: set<Id>)
    requires S != {} && AllPositioned(db, S)
    ensures exists m :: IsGreatest(db, S, m)
    decreases |S|
  {
    Pick(S);
    var x :| x in S;
    var rest := S - {x};
    if y :| y in rest {
      GreatestExists(db, rest);
      var m :| IsGreatest(db, rest, m);
      if Pos(db, m) <= Pos(db, x) {
        assert IsGreatest(db, S, x);
      } else {
        assert IsGreatest(db, S, m);
      }
    } else {
      forall k | k in S ensures Pos(db, k) <= Pos(db, x) {
        assert k == x || k in rest;
      }
      assert IsGreatest(db, S, x);
    }
  }

  lemma ExtremeUnique(db: Table, S: set<Id>)
    requires Ranked(db, S)
    ensures forall a, b | IsLeast(db, S, a) && IsLeast(db, S, b) :: a == b
    ensures forall a, b | IsGreatest(db, S, a) && IsGreatest(db, S, b) :: a == b
  {
    forall a, b | IsLeast(db, S, a) && IsLeast(db, S, b) ensures a == b {
      assert Pos(db, a) <= Pos(db, b) && Pos(db, b) <= Pos(db, a);
    }
    forall a, b | IsGreatest(db, S, a) && IsGreatest(db, S, b) ensures a == b {
      assert Pos(db, a) <= Pos(db, b) && Pos(db, b) <= Pos(db, a);
    }
  }

  /** The record of `S` with the smallest position. */
  function ArgMin(db: Table, S: set<Id>): (m: Id)
    requires S != {} && Ranked(db, S)
    ensures IsLeast(db, S, m)
  {
    LeastExists(db, S);
    ExtremeUnique(db, S);
    var m :| IsLeast(db, S, m); m
  }

  /** The record of `S` with the largest position. */
  function ArgMax(db: Table, S: set<Id>): (m: Id)
    requires S != {} && Ranked(db, S)
    ensures IsGreatest(db, S, m)
  {
    GreatestExists(db, S);
    ExtremeUnique(db, S);
    var m :| IsGreatest(db, S, m); m
  }

  /** `o` is in strictly ascending position order. */
  ghost predicate Ascending(db: Table, o: seq<Id>)
  {
    (forall i | 0 <= i < |o| :: Positioned(db, o[i])) &&
    forall i, j | 0 <= i < j < |o| :: Pos(db, o[i]) < Pos(db, o[j])
  }

  /** `o` enumerates exactly the elements of `S`. */
  ghost predicate Lists(o: seq<Id>, S: set<Id>)
  {
    (forall i | 0 <= i < |o| :: o[i] in S) && (forall k | k in S :: k in o)
  }

  predicate NoDuplicates(o: seq<Id>)
  {
    forall i, j | 0 <= i < j < |o| :: o[i] != o[j]
  }

  function Elems(o: seq<Id>): set<Id>
  {
    set k | k in o
  }

  lemma {:induction false} ElemsCard(o: seq<Id>)
    requires NoDuplicates(o)
    ensures |Elems(o)| == |o|
  {
    if o != [] {
      ElemsCard(o[1..]);
      assert Elems(o) == {o[0]} + Elems(o[1..]);
      assert o[0] !in Elems(o[1..]);
    }
  }

  /** The records of `S` ordered by ascending position. */
  function SortByPos(db: Table, S: set<Id>): (o: seq<Id>)
    requires Ranked(db, S)
    ensures |o| == |S| && Lists(o, S) && Ascending(db, o)
    decreases |S|
  {
    if S == {} then []
    else
      var m := ArgMin(db, S);
      var rest := SortByPos(db, S - {m});
      assert forall j | 0 <= j < |rest| :: Pos(db, m) < Pos(db, rest[j]) by {
        forall j | 0 <= j < |rest| ensures Pos(db, m) < Pos(db, rest[j]) {
          assert rest[j] in S && rest[j] != m;
        }
      }
      [m] + rest
  }

  /** The tail of an ascending listing of `S` lists `S` without its head. */
  lemma TailLists(db: Table, S: set<Id>, o: seq<Id>)
    requires Ascending(db, o) && Lists(o, S) && o != []
    ensures Ascending(db, o[1..]) && Lists(o[1..], S - {o[0]})
  {
    var tail := o[1..];
    forall i | 0 <= i < |tail| ensures tail[i] in S - {o[0]} {
      assert Pos(db, o[0]) < Pos(db, o[i + 1]);
    }
    forall k | k in S - {o[0]} ensures k in tail {
      var i :| 0 <= i < |o| && o[i] == k;
      assert tail[i - 1] == k;
    }
  }

  /** An ascending listing of `S` has no duplicates and exactly |S| entries. */
  lemma ListsCard(db: Table, S: set<Id>, o: seq<Id>)
    requires Ascending(db, o) && Lists(o, S)
    ensures NoDuplicates(o) && |o| == |S|
  {
    forall i, j | 0 <= i < j < |o| ensures o[i] != o[j] {
      assert Pos(db, o[i]) < Pos(db, o[j]);
    }
    ElemsCard(o);
    forall k ensures k in Elems(o) <==> k in S {
    }
    assert Elems(o) == S;
  }

  /** Ascending order is unique: any ascending listing of `S` is SortByPos(S). */
  lemma {:induction false} SortedUnique(db: Table, S: set<Id>, o: seq<Id>)
    requires Ranked(db, S) && Ascending(db, o) && Lists(o, S)
    ensures o == SortByPos(db, S)
    decreases |S|
  {
    ListsCard(db, S, o);
    if S == {} {
      assert |o| == 0;
    } else {
      var m := ArgMin(db, S);
      assert m in o;
      var i :| 0 <= i < |o| && o[i] == m;
      assert o[0] in S;
      assert Pos(db, m) <= Pos(db, o[0]);
      assert o[0] == m;
      TailLists(db, S, o);
      SortedUnique(db, S - {m}, o[1..]);
      assert o == [m] + o[1..];
    }
  }

  /** The `i`-th record of an ascending listing has exactly `i` records before it. */
  lemma RankInSorted(db: Table, S: set<Id>, o: seq<Id>, i: int)
    requires Ranked(db, S) && Ascending(db, o) && Lists(o, S) && 0 <= i < |o|
    ensures Below(db, S, Pos(db, o[i])) == Elems(o[..i])
    ensures |Below(db, S, Pos(db, o[i]))| == i
  {
    var b := Below(db, S, Pos(db, o[i]));
    forall k | k in b ensures k in Elems(o[..i]) {
      var j :| 0 <= j < |o| && o[j] == k;
      assert j < i;
      assert o[..i][j] == k;
    }
    forall k | k in Elems(o[..i]) ensures k in b {
      var j :| 0 <= j < i && o[..i][j] == k;
      assert Pos(db, o[j]) < Pos(db, o[i]);
    }
    assert b == Elems(o[..i]);
    assert NoDuplicates(o[..i]) by {
      forall a, c | 0 <= a < c < i ensures o[..i][a] != o[..i][c] {
        assert Pos(db, o[a]) < Pos(db, o[c]);
      }
    }
    ElemsCard(o[..i]);
  }

  /** The last `|o| - n` entries of an ascending listing of `S` are its nearest-to-the-end ones. */
  lemma SuffixNearest(db: Table, S: set<Id>, o: seq<Id>, n: int)
    requires Ascending(db, o) && Lists(o, S) && 0 <= n <= |o|
    ensures Ascending(db, o[n..])
    ensures forall i | 0 <= i < |o| - n :: o[n..][i] in S
    ensures forall k, i | k in S && k !in o[n..] && 0 <= i < |o| - n :: Pos(db, k) < Pos(db, o[n..][i])
  {
    var r := o[n..];
    forall i, j | 0 <= i < j < |r| ensures Pos(db, r[i]) < Pos(db, r[j]) {
      assert r[i] == o[n + i] && r[j] == o[n + j];
    }
    forall j | n <= j < |o| ensures o[j] in r {
      assert r[j - n] == o[j];
    }
    forall k, i | k in S && k !in r && 0 <= i < |r| ensures Pos(db, k) < Pos(db, r[i]) {
      var j :| 0 <= j < |o| && o[j] == k;
      assert j < n;
      assert r[i] == o[n + i];
    }
  }

  /** The first `n` entries of an ascending listing of `S` are its nearest-to-the-start ones. */
  lemma PrefixNearest(db: Table, S: set<Id>, o: seq<Id>, n: int)
    requires Ascending(db, o) && Lists(o, S) && 0 <= n <= |o|
    ensures Ascending(db, o[..n])
    ensures forall i | 0 <= i < n :: o[..n][i] in S
    ensures forall k, i | k in S && k !in o[..n] && 0 <= i < n :: Pos(db, o[..n][i]) < Pos(db, k)
  {
    var r := o[..n];
    forall i, j | 0 <= i < j < |r| ensures Pos(db, r[i]) < Pos(db, r[j]) {
      assert r[i] == o[i] && r[j] == o[j];
    }
    forall j | 0 <= j < n ensures o[j] in r {
      assert r[j] == o[j];
    }
    forall k, i | k in S && k !in r && 0 <= i < |r| ensures Pos(db, r[i]) < Pos(db, k) {
      var j :| 0 <= j < |o| && o[j] == k;
      assert n <= j;
      assert r[i] == o[i];
    }
  }

  /** In an ascending listing the last entry has the largest position. */
  lemma LastIsGreatest(db: Table, o: seq<Id>)
    requires Ascending(db, o) && o != []
    ensures forall k | k in o :: Pos(db, k) <= Pos(db, o[|o| - 1])
  {
    forall k | k in o ensures Pos(db, k) <= Pos(db, o[|o| - 1]) {
      var j :| 0 <= j < |o| && o[j] == k;
      if j < |o| - 1 {
        assert Pos(db, o[j]) < Pos(db, o[|o| - 1]);
      }
    }
  }

  /** In an ascending listing the first entry has the smallest position. */
  lemma FirstIsLeast(db: Table, o: seq<Id>)
    requires Ascending(db, o) && o != []
    ensures forall k | k in o :: Pos(db, o[0]) <= Pos(db, k)
  {
    forall k | k in o ensures Pos(db, o[0]) <= Pos(db, k) {
      var j :| 0 <= j < |o| && o[j] == k;
      if 0 < j {
        assert Pos(db, o[0]) < Pos(db, o[j]);
      }
    }
  }

  /** In an ascending listing, position order is index order. */
  lemma AscendingIndex(db: Table, o: seq<Id>, a: int, b: int)
    requires Ascending(db, o) && 0 <= a < |o| && 0 <= b < |o|
    ensures Pos(db, o[a]) < Pos(db, o[b]) ==> a < b
    ensures Pos(db, o[a]) <= Pos(db, o[b]) ==> a <= b
  {
  }

  /** A position strictly between places `c - 1` and `c` of an ascending listing has exactly `c` records below it. */
  lemma BelowBetween(db: Table, S: set<Id>, o: seq<Id>, c: int, p: real)
    requires Ascending(db, o) && Lists(o, S) && 0 < c < |o|
    requires Pos(db, o[c - 1]) < p < Pos(db, o[c])
    ensures Below(db, S, p) == Elems(o[..c])
    ensures |Below(db, S, p)| == c
  {
    ListsCard(db, S, o);
    forall k ensures k in Below(db, S, p) <==> k in Elems(o[..c]) {
      if k in S {
        var j :| 0 <= j < |o| && o[j] == k;
        if j < c {
          assert o[..c][j] == k;
          if j < c - 1 {
            assert Pos(db, o[j]) < Pos(db, o[c - 1]);
          }
        } else {
          if c < j {
            assert Pos(db, o[c]) < Pos(db, o[j]);
          }
          forall i | 0 <= i < c ensures o[..c][i] != k {
            assert o[i] != o[j];
          }
        }
      }
    }
    assert NoDuplicates(o[..c]) by {
      forall a, b | 0 <= a < b < c ensures o[..c][a] != o[..c][b] {
        assert o[a] != o[b];
      }
    }
    ElemsCard(o[..c]);
  }

  /** Positions held by the in-list records of scope `s`. */
  function ScopePositions(db: Table, s: ScopeKey): set<real>
  {
    set k | k in Members(db, s) :: Pos(db, k)
  }
}
