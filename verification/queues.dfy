/**
 * The subsystem's timed queues: the deferred ability effects that Tick
 * counts down and fires, and the ToDestroy countdown that
 * DestroyStalledEntity uses to destroy entities after a delay.
 */
module SmbQueues {
  import opened SmbCommon
  import opened SmbAbility
  import opened SmbGrid

  /** FAbilitySpawningData: an ability effect waiting for its delay to run out. */
  datatype SpawningData = SpawningData(ability: AbilityData, location: Vec3, delay: real)

  function Decremented(x: SpawningData, dt: real): SpawningData
  {
    x.(delay := x.delay - dt)
  }

  /** Every entry with its delay lowered once by dt, in order. */
  function DecrementedAll(s: seq<SpawningData>, dt: real): (r: seq<SpawningData>)
    ensures |r| == |s| && forall i :: 0 <= i < |s| ==> r[i] == Decremented(s[i], dt)
  {
    seq(|s|, i requires 0 <= i < |s| => Decremented(s[i], dt))
  }

  /** The entries Tick keeps: lowered once, still positive. */
  function Pending(s: seq<SpawningData>, dt: real): (m: multiset<SpawningData>)
  {
    if s == [] then multiset{}
    else
      var x := Decremented(s[|s| - 1], dt);
      Pending(s[..|s| - 1], dt) + if x.delay > 0.0 then multiset{x} else multiset{}
  }

  /** The entries Tick fires and removes: lowered once, at or below zero. */
  function Fired(s: seq<SpawningData>, dt: real): (m: multiset<SpawningData>)
  {
    if s == [] then multiset{}
    else
      var x := Decremented(s[|s| - 1], dt);
      Fired(s[..|s| - 1], dt) + if x.delay <= 0.0 then multiset{x} else multiset{}
  }

  /** The entry that Decremented(_, dt) maps to y. */
  function Raised(y: SpawningData, dt: real): (x: SpawningData)
    ensures Decremented(x, dt) == y
    ensures forall z :: Decremented(z, dt) == y ==> z == x
  {
    y.(delay := y.delay + dt)
  }

  /**
   * How often y is kept: once for each original entry that lowers to y,
   * provided y is still positive. The kept entries therefore depend only on
   * the multiset of the originals, not on their order.
   */
  lemma {:induction false} PendingCount(s: seq<SpawningData>, dt: real, y: SpawningData)
    ensures Pending(s, dt)[y] == if y.delay > 0.0 then multiset(s)[Raised(y, dt)] else 0
  {
    if s != [] {
      var prefix, last := s[..|s| - 1], s[|s| - 1];
      PendingCount(prefix, dt, y);
      assert s == prefix + [last];
      assert multiset(s)[Raised(y, dt)] == multiset(prefix)[Raised(y, dt)] + if last == Raised(y, dt) then 1 else 0;
    }
  }

  /** How often y is fired: once for each original entry that lowers to y, provided y is at or below zero. */
  lemma {:induction false} FiredCount(s: seq<SpawningData>, dt: real, y: SpawningData)
    ensures Fired(s, dt)[y] == if y.delay <= 0.0 then multiset(s)[Raised(y, dt)] else 0
  {
    if s != [] {
      var prefix, last := s[..|s| - 1], s[|s| - 1];
      FiredCount(prefix, dt, y);
      assert s == prefix + [last];
      assert multiset(s)[Raised(y, dt)] == multiset(prefix)[Raised(y, dt)] + if last == Raised(y, dt) then 1 else 0;
    }
  }

  /** Every kept entry is still waiting. */
  lemma PendingStillWait(s: seq<SpawningData>, dt: real)
    ensures forall y :: y in Pending(s, dt) ==> y.delay > 0.0
  {
    forall y | y in Pending(s, dt)
      ensures y.delay > 0.0
    {
      PendingCount(s, dt, y);
    }
  }

  /** Every fired entry has run out. */
  lemma FiredAreDue(s: seq<SpawningData>, dt: real)
    ensures forall y :: y in Fired(s, dt) ==> y.delay <= 0.0
  {
    forall y | y in Fired(s, dt)
      ensures y.delay <= 0.0
    {
      FiredCount(s, dt, y);
    }
  }

  /** Reordering the queue does not change which entries are kept or fired. */
  lemma PendingOfPermutation(s: seq<SpawningData>, t: seq<SpawningData>, dt: real)
    requires multiset(s) == multiset(t)
    ensures Pending(s, dt) == Pending(t, dt) && Fired(s, dt) == Fired(t, dt)
  {
    forall y
      ensures Pending(s, dt)[y] == Pending(t, dt)[y] && Fired(s, dt)[y] == Fired(t, dt)[y]
    {
      PendingCount(s, dt, y);
      PendingCount(t, dt, y);
      FiredCount(s, dt, y);
      FiredCount(t, dt, y);
    }
  }

  /**
   * Every entry is lowered exactly once and ends up either kept or fired,
   * never both and never lost.
   */
  lemma {:induction false} PendingAndFiredPartition(s: seq<SpawningData>, dt: real)
    ensures Pending(s, dt) + Fired(s, dt) == multiset(DecrementedAll(s, dt))
  {
    if s != [] {
      var prefix := s[..|s| - 1];
      PendingAndFiredPartition(prefix, dt);
      assert DecrementedAll(s, dt) == DecrementedAll(prefix, dt) + [Decremented(s[|s| - 1], dt)];
    }
  }

  /** An entry whose delay is more than dt is kept, not fired. */
  lemma {:induction false} LongDelaysWait(s: seq<SpawningData>, dt: real)
    requires forall i :: 0 <= i < |s| ==> s[i].delay > dt
    ensures Fired(s, dt) == multiset{}
    ensures Pending(s, dt) == multiset(DecrementedAll(s, dt))
  {
    if s != [] {
      LongDelaysWait(s[..|s| - 1], dt);
    }
    PendingAndFiredPartition(s, dt);
  }

  // ----- DestroyDelayed, DestroyStalledEntity -----

  /** ToDestroy: the pending destruction delay of each handle. */
  type Countdown = map<Handle, real>

  /** DestroyDelayed: a handle already pending keeps its delay; a new one is added with the given delay. */
  function Scheduled(m: Countdown, h: Handle, delay: real): (r: Countdown)
    ensures r.Keys == m.Keys + {h}
    ensures forall x :: x in m ==> r[x] == m[x]
  {
    if h in m then m else m[h := delay]
  }

  /** Scheduling a handle a second time changes nothing, whatever the second delay. */
  lemma ScheduleIsIdempotent(m: Countdown, h: Handle, d1: real, d2: real)
    ensures Scheduled(Scheduled(m, h, d1), h, d2) == Scheduled(m, h, d1)
  {
  }

  /** DestroyStalledEntity's countdown: every entry lowered by dt, none removed. */
  function CountedDown(m: Countdown, dt: real): (r: Countdown)
    ensures r.Keys == m.Keys
  {
    map h | h in m :: m[h] - dt
  }

  /** The countdown partway through DestroyStalledEntity's walk: only the handles of S lowered so far. */
  function PartlyCountedDown(m: Countdown, S: set<Handle>, dt: real): (r: Countdown)
    ensures r.Keys == m.Keys
  {
    map h | h in m :: if h in S then m[h] - dt else m[h]
  }

  /** Lowering one more handle's delay extends the lowered set by that handle. */
  lemma CountDownStep(m: Countdown, S: set<Handle>, h: Handle, dt: real)
    requires h in m && h !in S
    ensures PartlyCountedDown(m, S, dt)[h] == m[h]
    ensures var p := PartlyCountedDown(m, S, dt);
            p[h := p[h] - dt] == PartlyCountedDown(m, S + {h}, dt)
  {
  }

  /** At the start nothing is lowered; at the end every entry is. */
  lemma CountDownEnds(m: Countdown, dt: real)
    ensures PartlyCountedDown(m, {}, dt) == m
    ensures PartlyCountedDown(m, m.Keys, dt) == CountedDown(m, dt)
  {
  }

  /** The handles whose delay reaches zero or less on this tick. */
  function Expired(m: Countdown, dt: real): (r: set<Handle>)
    ensures forall h :: h in r <==> h in m && m[h] - dt <= 0.0
  {
    set h | h in m && m[h] - dt <= 0.0
  }

  /**
   * Expired entries are never removed: with time not running backwards,
   * an entry that expired expires again on every later tick, so
   * DestroyEntity is asked to destroy it again each time.
   */
  lemma ExpiredStaysExpired(m: Countdown, dt: real, later: real, h: Handle)
    requires h in Expired(m, dt) && 0.0 <= later
    ensures h in Expired(CountedDown(m, dt), later)
  {
  }

  /** The handles of s that are not in S, in order. */
  function WithoutAll(s: seq<Handle>, S: set<Handle>): (r: seq<Handle>)
    ensures forall h :: h in r <==> h in s && h !in S
  {
    if s == [] then []
    else
      assert s == [s[0]] + s[1..];
      if s[0] in S then WithoutAll(s[1..], S) else [s[0]] + WithoutAll(s[1..], S)
  }

  /** Removing handles one at a time removes the set of them. */
  lemma {:induction false} WithoutAllStep(s: seq<Handle>, S: set<Handle>, h: Handle)
    ensures Without(WithoutAll(s, S), h) == WithoutAll(s, S + {h})
  {
    if s != [] {
      WithoutAllStep(s[1..], S, h);
      var rest := WithoutAll(s[1..], S);
      if s[0] !in S {
        var kept := [s[0]] + rest;
        assert kept[0] == s[0] && kept[1..] == rest;
        if s[0] == h {
          assert Without(kept, h) == Without(rest, h);
        } else {
          assert Without(kept, h) == [s[0]] + Without(rest, h);
        }
      }
    }
  }

  /** Removing no handles keeps the cell as it is. */
  lemma {:induction false} WithoutNothing(s: seq<Handle>)
    ensures WithoutAll(s, {}) == s
  {
    if s != [] {
      WithoutNothing(s[1..]);
    }
  }

  /** With nothing pending, the countdown stays empty and nothing expires. */
  lemma NothingExpires(m: Countdown, dt: real)
    requires |m| == 0
    ensures CountedDown(m, dt) == m && Expired(m, dt) == {}
  {
    assert m == map[];
  }

  /**
   * RemoveAtSwap(i): the last entry moves into slot i and the array
   * shrinks by one, so the entries before i stay where they are and the
   * entries from i on are, as a multiset, those that followed i.
   */
  lemma {:induction false} SwapRemoveParts(a: seq<SpawningData>, i: int)
    requires 0 <= i < |a|
    ensures var b := a[i := a[|a| - 1]][..|a| - 1];
            b[..i] == a[..i] && multiset(b[i..]) == multiset(a[i + 1..])
  {
    var last := |a| - 1;
    var b := a[i := a[last]][..last];
    if i < last {
      assert b[i..] == [a[last]] + a[i + 1..last];
      assert a[i + 1..] == a[i + 1..last] + [a[last]];
    } else {
      assert b[i..] == [];
    }
  }

  /**
   * Tick's walk over the queue, with the entries looked at so far in
   * `seen`: the first i slots hold the kept entries, the rest of the array
   * holds, as a multiset, the entries not yet looked at, and `fired` holds
   * the fired ones.
   */
  predicate TickInv(a: seq<SpawningData>, i: int, seen: seq<SpawningData>, fired: seq<SpawningData>,
                    queue0: seq<SpawningData>, dt: real)
  {
    0 <= i <= |a| &&
    multiset(seen) + multiset(a[i..]) == multiset(queue0) &&
    multiset(a[..i]) == Pending(seen, dt) &&
    multiset(fired) == Fired(seen, dt)
  }

  /** Looking at one more entry adds it, lowered, to the kept or to the fired entries. */
  lemma PendingFiredSnoc(s: seq<SpawningData>, x: SpawningData, dt: real)
    ensures var y := Decremented(x, dt);
            && Pending(s + [x], dt) == Pending(s, dt) + (if y.delay > 0.0 then multiset{y} else multiset{})
            && Fired(s + [x], dt) == Fired(s, dt) + (if y.delay <= 0.0 then multiset{y} else multiset{})
  {
    assert (s + [x])[..|s|] == s;
  }

  /** Slot i lowered and then swap-removed: the slots before i are untouched and the rest are those after i. */
  lemma {:induction false} LoweredSwapRemove(a: seq<SpawningData>, i: int, dt: real, b: seq<SpawningData>, c: seq<SpawningData>)
    requires 0 <= i < |a|
    requires b == a[i := Decremented(a[i], dt)]
    requires c == b[i := b[|b| - 1]][..|b| - 1]
    ensures c[..i] == a[..i] && multiset(c[i..]) == multiset(a[i + 1..])
  {
    SwapRemoveParts(b, i);
    assert b[..i] == a[..i] && b[i + 1..] == a[i + 1..];
  }

  /** An entry that runs out is fired and swap-removed; the walk stays at i. */
  lemma {:induction false} FireStep(a: seq<SpawningData>, i: int, seen: seq<SpawningData>, fired: seq<SpawningData>,
                                    queue0: seq<SpawningData>, dt: real, b: seq<SpawningData>, c: seq<SpawningData>)
    requires TickInv(a, i, seen, fired, queue0, dt) && i < |a|
    requires b == a[i := Decremented(a[i], dt)] && b[i].delay <= 0.0
    requires c == b[i := b[|b| - 1]][..|b| - 1]
    ensures TickInv(c, i, seen + [a[i]], fired + [b[i]], queue0, dt)
  {
    var next := seen + [a[i]];
    LoweredSwapRemove(a, i, dt, b, c);
    assert multiset(next) == multiset(seen) + multiset{a[i]};
    assert multiset(a[i..]) == multiset{a[i]} + multiset(a[i + 1..]) by {
      assert a[i..] == [a[i]] + a[i + 1..];
    }
    assert multiset(c[..i]) == Pending(next, dt) by {
      PendingFiredSnoc(seen, a[i], dt);
    }
    assert multiset(fired + [b[i]]) == Fired(next, dt) by {
      PendingFiredSnoc(seen, a[i], dt);
    }
  }

  /** An entry still waiting is kept in place with its lowered delay; the walk moves on. */
  lemma {:induction false} KeepStep(a: seq<SpawningData>, i: int, seen: seq<SpawningData>, fired: seq<SpawningData>,
                                    queue0: seq<SpawningData>, dt: real, b: seq<SpawningData>)
    requires TickInv(a, i, seen, fired, queue0, dt) && i < |a|
    requires b == a[i := Decremented(a[i], dt)] && b[i].delay > 0.0
    ensures TickInv(b, i + 1, seen + [a[i]], fired, queue0, dt)
  {
    var next := seen + [a[i]];
    assert multiset(next) + multiset(b[i + 1..]) == multiset(queue0) by {
      assert a[i..] == [a[i]] + a[i + 1..];
      assert b[i + 1..] == a[i + 1..];
    }
    assert multiset(b[..i + 1]) == Pending(next, dt) by {
      PendingFiredSnoc(seen, a[i], dt);
      assert b[..i + 1] == a[..i] + [b[i]];
    }
    assert multiset(fired) == Fired(next, dt) by {
      PendingFiredSnoc(seen, a[i], dt);
    }
  }
}
