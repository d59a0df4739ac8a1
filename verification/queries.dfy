/**
 * What the subsystem's read-only queries compute, stated over the entity
 * directory and the candidate handles the grid returns. Each query first
 * takes the handles of a window of cells, then keeps the candidates that
 * pass its filter, then picks the closest one or the closest few.
 *
 * Distances are compared through their squares (`DistSq`); by
 * `LengthComparisons` this orders candidates exactly as their lengths do.
 */
module SmbQueries {
  import opened SmbCommon
  import opened SmbFragments
  import opened SmbGrid
  import opened SmbEntities

  /**
   * The cell radius GetClosestEnemy and GetNumberClosestEntities search:
   * one more than the radius in whole cells, rounded toward zero.
   */
  function QueryCellRadius(radius: real): (r: int)
    ensures 0.0 <= radius ==> 1 <= r && (r - 1) as real * CellSize <= radius < r as real * CellSize
    ensures radius < CellSize ==> r <= 1
  {
    1 + TruncToInt(radius / CellSize)
  }

  // ----- GetClosestResource -----

  /**
   * Position i holds a location closest to p, and no earlier location is
   * as close: the first of the closest.
   */
  predicate FirstClosest(locs: seq<Vec3>, p: Vec3, i: int)
  {
    0 <= i < |locs| &&
    (forall j :: 0 <= j < |locs| ==> DistSq(p, locs[i]) <= DistSq(p, locs[j])) &&
    (forall j :: 0 <= j < i ==> DistSq(p, locs[i]) < DistSq(p, locs[j]))
  }

  /** At most one position is the first of the closest, so the choice is determined. */
  lemma FirstClosestIsUnique(locs: seq<Vec3>, p: Vec3, i: int, j: int)
    requires FirstClosest(locs, p, i) && FirstClosest(locs, p, j)
    ensures i == j
  {
    assert DistSq(p, locs[i]) <= DistSq(p, locs[j]);
    assert DistSq(p, locs[j]) <= DistSq(p, locs[i]);
  }

  /**
   * The position GetClosestResource's loop settles on: a later location
   * replaces the current one only when strictly closer.
   */
  function FirstClosestIndex(locs: seq<Vec3>, p: Vec3): (i: int)
    requires |locs| > 0
    ensures FirstClosest(locs, p, i)
  {
    if |locs| == 1 then 0
    else
      var prefix := locs[..|locs| - 1];
      var j := FirstClosestIndex(prefix, p);
      assert forall k :: 0 <= k < |prefix| ==> prefix[k] == locs[k];
      if DistSq(p, locs[|locs| - 1]) < DistSq(p, locs[j]) then |locs| - 1 else j
  }

  // ----- GetClosestEnemy -----

  /** A handle GetClosestEnemy may return: live, placed, on another team, alive. */
  predicate IsEnemyCandidate(ents: Directory, u: Handle, teamId: int)
  {
    u in ents && ents[u].location.Some? &&
    ents[u].team.Some? && ents[u].team.value.teamID != teamId &&
    ents[u].defence.Some? && ents[u].defence.value.hp > 0.0
  }

  /** Position i holds the first enemy candidate at the least distance from p. */
  predicate ClosestEnemyAt(ents: Directory, units: seq<Handle>, p: Vec3, teamId: int, i: int)
  {
    0 <= i < |units| && IsEnemyCandidate(ents, units[i], teamId) &&
    (forall j :: 0 <= j < |units| && IsEnemyCandidate(ents, units[j], teamId) ==>
       DistSq(p, LocationOf(ents, units[i])) <= DistSq(p, LocationOf(ents, units[j]))) &&
    (forall j :: 0 <= j < i && IsEnemyCandidate(ents, units[j], teamId) ==>
       DistSq(p, LocationOf(ents, units[i])) < DistSq(p, LocationOf(ents, units[j])))
  }

  /**
   * The position GetClosestEnemy's loop settles on, or -1 when no
   * candidate qualifies: a later candidate replaces the current one only
   * when strictly closer.
   */
  function ClosestEnemyIndex(ents: Directory, units: seq<Handle>, p: Vec3, teamId: int): (i: int)
    ensures -1 <= i < |units|
    ensures i == -1 <==> forall j :: 0 <= j < |units| ==> !IsEnemyCandidate(ents, units[j], teamId)
    ensures i != -1 ==> ClosestEnemyAt(ents, units, p, teamId, i)
  {
    if units == [] then -1
    else
      var prefix := units[..|units| - 1];
      var j := ClosestEnemyIndex(ents, prefix, p, teamId);
      var u := units[|units| - 1];
      assert forall k :: 0 <= k < |prefix| ==> prefix[k] == units[k];
      if !IsEnemyCandidate(ents, u, teamId) then j
      else if j == -1 || DistSq(p, LocationOf(ents, u)) < DistSq(p, LocationOf(ents, units[j])) then |units| - 1
      else j
  }

  /** One more handle seen: GetClosestEnemy's loop keeps or replaces its current choice. */
  lemma ClosestEnemyStep(ents: Directory, units: seq<Handle>, p: Vec3, teamId: int, i: int, j: int)
    requires 0 <= i < |units| && j == ClosestEnemyIndex(ents, units[..i], p, teamId)
    ensures -1 <= j < i
    ensures ClosestEnemyIndex(ents, units[..i + 1], p, teamId) ==
            if !IsEnemyCandidate(ents, units[i], teamId) then j
            else if j == -1 || DistSq(p, LocationOf(ents, units[i])) < DistSq(p, LocationOf(ents, units[j])) then i
            else j
  {
    assert units[..i + 1][..i] == units[..i];
  }

  /** At most one position is the first closest enemy, so the choice is determined. */
  lemma ClosestEnemyIsUnique(ents: Directory, units: seq<Handle>, p: Vec3, teamId: int, i: int, j: int)
    requires ClosestEnemyAt(ents, units, p, teamId, i) && ClosestEnemyAt(ents, units, p, teamId, j)
    ensures i == j
  {
    assert DistSq(p, LocationOf(ents, units[i])) <= DistSq(p, LocationOf(ents, units[j]));
    assert DistSq(p, LocationOf(ents, units[j])) <= DistSq(p, LocationOf(ents, units[i]));
  }

  // ----- GetNumberClosestEntities -----

  /** The team GetNumberClosestEntities compares: -2 for an entity without a team. */
  function TeamOrNone(e: Entity): (t: int)
    ensures e.team.None? ==> t == -2
    ensures e.team.Some? ==> t == e.team.value.teamID
  {
    if e.team.Some? then e.team.value.teamID else -2
  }

  /** A handle GetNumberClosestEntities may return: live, not of `team`, placed within `radius`. */
  predicate IsNearCandidate(ents: Directory, u: Handle, p: Vec3, radius: real, team: int)
  {
    u in ents && TeamOrNone(ents[u]) != team && ents[u].location.Some? &&
    WithinDist(p, ents[u].location.value, radius)
  }

  /** The sort key of a placed entity: its squared distance from p. */
  function Key(ents: Directory, p: Vec3, u: Handle): real
    requires u in ents && ents[u].location.Some?
  {
    DistSq(p, LocationOf(ents, u))
  }

  /** The (distance, handle) pairs GetNumberClosestEntities collects, in candidate order. */
  function NearPairs(ents: Directory, units: seq<Handle>, p: Vec3, radius: real, team: int)
    : (r: seq<(real, Handle)>)
    ensures forall x :: x in r ==> IsNearCandidate(ents, x.1, p, radius, team) && x.0 == Key(ents, p, x.1)
    ensures forall j :: 0 <= j < |units| && IsNearCandidate(ents, units[j], p, radius, team) ==>
              (Key(ents, p, units[j]), units[j]) in r
    ensures |r| <= |units|
  {
    if units == [] then []
    else
      var prev := NearPairs(ents, units[..|units| - 1], p, radius, team);
      var u := units[|units| - 1];
      if IsNearCandidate(ents, u, p, radius, team) then prev + [(Key(ents, p, u), u)] else prev
  }

  /** The number of candidates that pass the filter, counted with repetition. */
  function CountNear(ents: Directory, units: seq<Handle>, p: Vec3, radius: real, team: int): nat
  {
    |NearPairs(ents, units, p, radius, team)|
  }

  predicate SortedByKey(s: seq<(real, Handle)>)
  {
    forall i, j :: 0 <= i < j < |s| ==> s[i].0 <= s[j].0
  }

  /** A pair no greater than anything in a sorted sequence may go in front of it. */
  lemma ConsSorted(a: (real, Handle), rest: seq<(real, Handle)>)
    requires SortedByKey(rest)
    requires forall y :: y in rest ==> a.0 <= y.0
    ensures SortedByKey([a] + rest)
  {
    var r := [a] + rest;
    forall i, j | 0 <= i < j < |r|
      ensures r[i].0 <= r[j].0
    {
      assert r[j] == rest[j - 1];
      if i == 0 {
        assert rest[j - 1] in rest;
      } else {
        assert r[i] == rest[i - 1];
      }
    }
  }

  /** Inserts x after every pair whose key is not greater than x's. */
  function InsertByKey(s: seq<(real, Handle)>, x: (real, Handle)): seq<(real, Handle)>
  {
    if s == [] then [x]
    else if x.0 < s[0].0 then [x] + s
    else [s[0]] + InsertByKey(s[1..], x)
  }

  /** Inserting into a sorted sequence keeps it sorted and adds exactly x. */
  lemma {:induction false} InsertByKeySorts(s: seq<(real, Handle)>, x: (real, Handle))
    requires SortedByKey(s)
    ensures SortedByKey(InsertByKey(s, x))
    ensures multiset(InsertByKey(s, x)) == multiset(s) + multiset{x}
  {
    InsertByKeyAddsOne(s, x);
    if s == [] {
    } else if x.0 < s[0].0 {
      HeadIsLeast(s);
      ConsSorted(x, s);
    } else {
      var rest := InsertByKey(s[1..], x);
      InsertByKeySorts(s[1..], x);
      HeadIsLeast(s);
      forall y | y in rest
        ensures s[0].0 <= y.0
      {
        assert y in multiset(rest);
        if y != x {
          assert y in multiset(s[1..]);
          assert y in s;
        }
      }
      ConsSorted(s[0], rest);
    }
  }

  /** Inserting adds exactly x, wherever it lands. */
  lemma {:induction false} InsertByKeyAddsOne(s: seq<(real, Handle)>, x: (real, Handle))
    ensures multiset(InsertByKey(s, x)) == multiset(s) + multiset{x}
  {
    if s != [] && x.0 >= s[0].0 {
      InsertByKeyAddsOne(s[1..], x);
      assert s == [s[0]] + s[1..];
    }
  }

  /** The head of a sorted sequence has the least key. */
  lemma HeadIsLeast(s: seq<(real, Handle)>)
    requires SortedByKey(s) && s != []
    ensures forall y :: y in s ==> s[0].0 <= y.0
  {
    forall y | y in s
      ensures s[0].0 <= y.0
    {
      var k :| 0 <= k < |s| && s[k] == y;
      assert s[0].0 <= s[k].0;
    }
  }

  /** The handles of a sequence of pairs, in order. */
  function HandlesOf(s: seq<(real, Handle)>): (r: seq<Handle>)
    ensures |r| == |s| && forall i :: 0 <= i < |s| ==> r[i] == s[i].1
  {
    seq(|s|, i requires 0 <= i < |s| => s[i].1)
  }

  /**
   * r answers GetNumberClosestEntities over the handles `units`: as many
   * handles as the lesser of `amount` and the number of candidates (none
   * for a negative amount), each a candidate, in order of distance, and
   * no candidate left out that is strictly closer than the last one
   * returned; when fewer than `amount` are returned, none is left out.
   */
  ghost predicate ClosestChoice(ents: Directory, units: seq<Handle>, p: Vec3, radius: real, team: int,
                                amount: int, r: seq<Handle>)
  {
    && |r| == Max0(IMin(amount, CountNear(ents, units, p, radius, team)))
    && (forall i :: 0 <= i < |r| ==> IsNearCandidate(ents, r[i], p, radius, team))
    && (forall i, j :: 0 <= i < j < |r| ==> Key(ents, p, r[i]) <= Key(ents, p, r[j]))
    && (forall j :: 0 <= j < |units| && IsNearCandidate(ents, units[j], p, radius, team) &&
          (|r| < amount || (0 < |r| && Key(ents, p, units[j]) < Key(ents, p, r[|r| - 1])))
          ==> units[j] in r)
  }

  /** Every handle of a prefix of the sorted pairs is a candidate, and they come in order of distance. */
  lemma {:induction false} PrefixInOrder(ents: Directory, units: seq<Handle>, p: Vec3, radius: real, team: int,
                                         sorted: seq<(real, Handle)>, n: nat)
    requires SortedByKey(sorted)
    requires multiset(sorted) == multiset(NearPairs(ents, units, p, radius, team))
    requires n <= |sorted|
    ensures var r := HandlesOf(sorted[..n]);
            && (forall i :: 0 <= i < |r| ==> IsNearCandidate(ents, r[i], p, radius, team))
            && (forall i, j :: 0 <= i < j < |r| ==> Key(ents, p, r[i]) <= Key(ents, p, r[j]))
  {
    var pairs := NearPairs(ents, units, p, radius, team);
    var r := HandlesOf(sorted[..n]);
    assert forall i :: 0 <= i < |sorted| ==> sorted[i] in multiset(pairs);
    forall i | 0 <= i < |r|
      ensures IsNearCandidate(ents, r[i], p, radius, team)
    {
      assert sorted[i] in pairs;
    }
    forall i, j | 0 <= i < j < |r|
      ensures Key(ents, p, r[i]) <= Key(ents, p, r[j])
    {
      assert sorted[i] in pairs && sorted[j] in pairs;
    }
  }

  /**
   * A candidate left out of a prefix of the sorted pairs is no closer than
   * the last handle kept; when the whole sequence is kept, none is left out.
   */
  lemma {:induction false} PrefixKeepsCloser(ents: Directory, units: seq<Handle>, p: Vec3, radius: real, team: int,
                                             sorted: seq<(real, Handle)>, n: nat, j: int)
    requires SortedByKey(sorted)
    requires multiset(sorted) == multiset(NearPairs(ents, units, p, radius, team))
    requires n <= |sorted| && 0 <= j < |units| && IsNearCandidate(ents, units[j], p, radius, team)
    requires n == |sorted| || (0 < n && Key(ents, p, units[j]) < sorted[n - 1].0)
    ensures units[j] in HandlesOf(sorted[..n])
  {
    var x := (Key(ents, p, units[j]), units[j]);
    assert x in multiset(sorted);
    var m :| 0 <= m < |sorted| && sorted[m] == x;
    assert HandlesOf(sorted[..n])[m] == units[j];
  }

  /**
   * Cutting a key-sorted arrangement of the candidate pairs after
   * `amount` entries answers the query.
   */
  lemma {:induction false} ClosestPrefix(ents: Directory, units: seq<Handle>, p: Vec3, radius: real, team: int,
                                         sorted: seq<(real, Handle)>, amount: int)
    requires SortedByKey(sorted)
    requires multiset(sorted) == multiset(NearPairs(ents, units, p, radius, team))
    ensures ClosestChoice(ents, units, p, radius, team, amount,
                          HandlesOf(sorted[..Max0(IMin(amount, |sorted|))]))
  {
    var pairs := NearPairs(ents, units, p, radius, team);
    var n := Max0(IMin(amount, |sorted|));
    var r := HandlesOf(sorted[..n]);
    assert |sorted| == |pairs| by {
      assert |multiset(sorted)| == |multiset(pairs)|;
    }
    PrefixInOrder(ents, units, p, radius, team, sorted, n);
    assert |r| < amount ==> n == |sorted|;
    if 0 < n {
      assert sorted[n - 1] in multiset(pairs);
      assert Key(ents, p, r[|r| - 1]) == sorted[n - 1].0;
    }
    forall j | 0 <= j < |units| && IsNearCandidate(ents, units[j], p, radius, team) &&
               (|r| < amount || (0 < |r| && Key(ents, p, units[j]) < Key(ents, p, r[|r| - 1])))
      ensures units[j] in r
    {
      PrefixKeepsCloser(ents, units, p, radius, team, sorted, n, j);
    }
  }

  // ----- SelectEntitiesInside -----

  function IntAbs(x: int): (r: nat)
    ensures r == x || r == -x
  {
    if x < 0 then -x else x
  }

  /** Halving the sum of a cell coordinate with itself gives the coordinate back. */
  lemma HalfOfTwice(a: int)
    ensures TruncToInt((a + a) as real / 2.0) == a
  {
    assert (a + a) as real / 2.0 == a as real;
  }

  /**
   * The window SelectEntitiesInside searches: centred on the midpoint of
   * the corner cells (rounded toward zero) with a cell radius equal to the
   * Manhattan distance between them.
   */
  function SelectionWindow(topLeft: Vec3, bottomRight: Vec3): (w: (int, int, int))
    ensures w.2 >= 0
    ensures VectorToCell(topLeft) == VectorToCell(bottomRight) ==> w == (VectorToCell(topLeft).0, VectorToCell(topLeft).1, 0)
  {
    var a := VectorToCell(topLeft);
    var b := VectorToCell(bottomRight);
    HalfOfTwice(a.0);
    HalfOfTwice(a.1);
    (TruncToInt((a.0 + b.0) as real / 2.0), TruncToInt((a.1 + b.1) as real / 2.0),
     IntAbs(a.1 - b.1) + IntAbs(a.0 - b.0))
  }

  /**
   * A handle SelectEntitiesInside returns: live; of the requested team
   * unless the request is for every team (-1) or the entity has no team;
   * placed inside the selection box; and not dead if it has a defence.
   * The oriented-box test is the parameter `inBox`.
   */
  predicate IsSelectable(ents: Directory, u: Handle, team: int, inBox: Vec3 -> bool)
  {
    u in ents &&
    (ents[u].team.Some? ==> team == -1 || ents[u].team.value.teamID == team) &&
    ents[u].location.Some? && inBox(ents[u].location.value) &&
    (ents[u].defence.Some? ==> ents[u].defence.value.hp > 0.0)
  }

  /** The entities SelectEntitiesInside returns, in candidate order. */
  function Selected(ents: Directory, units: seq<Handle>, team: int, inBox: Vec3 -> bool)
    : (r: seq<EntityData>)
    ensures forall d :: d in r ==> ToHandle(d) in units && IsSelectable(ents, ToHandle(d), team, inBox)
    ensures forall j :: 0 <= j < |units| && IsSelectable(ents, units[j], team, inBox) ==>
              FromHandle(units[j]) in r
    ensures |r| <= |units|
  {
    if units == [] then []
    else
      var prev := Selected(ents, units[..|units| - 1], team, inBox);
      var u := units[|units| - 1];
      assert forall d :: d in prev ==> ToHandle(d) in units[..|units| - 1];
      if IsSelectable(ents, u, team, inBox) then prev + [FromHandle(u)] else prev
  }

  /**
   * When both corners fall in the same cell the window has cell radius 0
   * and therefore no cells, so nothing is selected.
   */
  lemma OneCellBoxSelectsNothing(ents: Directory, cells: Cells, topLeft: Vec3, bottomRight: Vec3,
                                 team: int, inBox: Vec3 -> bool)
    requires VectorToCell(topLeft) == VectorToCell(bottomRight)
    ensures var w := SelectionWindow(topLeft, bottomRight);
            Selected(ents, Around(cells, w.0, w.1, w.2), team, inBox) == []
  {
    var w := SelectionWindow(topLeft, bottomRight);
    AroundEmpty(cells, w.0, w.1, w.2);
  }
}
