/**
 * The resource ledger: what entities carry (FResourceFragment::Carrying),
 * what the subsystem reports as stored in the depots, and how a cost is
 * paid out of the depots.
 *
 * The source walks TMap keys in the map's own order. Every walk here
 * updates each key on its own, so the order does not matter; the model
 * walks the keys in the order of `AllKinds`, which lists every kind once.
 * Amounts are int32 in the source and unbounded here.
 */
module SmbLedger {
  import opened SmbCommon
  import opened SmbFragments
  import opened SmbEntities

  type Amounts = map<EProcessable, int>

  const AllKinds: seq<EProcessable> := [Gold, Food, Grass, Wood, Stone, Water, Storage, EProcessable.None]

  predicate Distinct<T(==)>(s: seq<T>)
  {
    forall i, j :: 0 <= i < j < |s| ==> s[i] != s[j]
  }

  lemma AllKindsListsEveryKind()
    ensures Distinct(AllKinds)
    ensures forall k: EProcessable :: k in AllKinds
  {
    forall k: EProcessable
      ensures k in AllKinds
    {
      match k
      case Gold => assert AllKinds[0] == k;
      case Food => assert AllKinds[1] == k;
      case Grass => assert AllKinds[2] == k;
      case Wood => assert AllKinds[3] == k;
      case Stone => assert AllKinds[4] == k;
      case Water => assert AllKinds[5] == k;
      case Storage => assert AllKinds[6] == k;
      case None => assert AllKinds[7] == k;
    }
  }

  /** The amount of a kind, 0 when the kind is absent. */
  function Get(m: Amounts, k: EProcessable): int
  {
    if k in m then m[k] else 0
  }

  // ----- AddToEntity, RemoveFromEntity -----

  /** AddToEntity on the carried amounts: a missing kind starts at 0. */
  function Deposit(c: Amounts, k: EProcessable, amount: int): (r: Amounts)
    ensures r.Keys == c.Keys + {k}
    ensures r[k] == Get(c, k) + amount
    ensures forall j :: j in c && j != k ==> r[j] == c[j]
  {
    c[k := Get(c, k) + amount]
  }

  /**
   * RemoveFromEntity on the carried amounts: it fails when the kind is
   * absent or holds less than the amount, and otherwise lowers it.
   */
  function Withdraw(c: Amounts, k: EProcessable, amount: int): (r: Option<Amounts>)
    ensures r.None? <==> k !in c || c[k] < amount
    ensures r.Some? ==> r.value.Keys == c.Keys && r.value[k] == c[k] - amount &&
                        forall j :: j in c && j != k ==> r.value[j] == c[j]
  {
    if k !in c || c[k] < amount then Option.None else Some(c[k := c[k] - amount])
  }

  /** A successful removal leaves the kind at zero or above. */
  lemma WithdrawLeavesNonNegative(c: Amounts, k: EProcessable, amount: int)
    requires Withdraw(c, k, amount).Some?
    ensures Withdraw(c, k, amount).value[k] >= 0
  {
  }

  /** Adding back what was removed restores the carried amounts. */
  lemma DepositUndoesWithdraw(c: Amounts, k: EProcessable, amount: int)
    requires Withdraw(c, k, amount).Some?
    ensures Deposit(Withdraw(c, k, amount).value, k, amount) == c
  {
    var w := Withdraw(c, k, amount).value;
    assert Deposit(w, k, amount).Keys == c.Keys;
  }

  /**
   * Removing what was just added succeeds when the kind was not negative,
   * and gives back the original amounts, with an absent kind now at 0.
   */
  lemma WithdrawUndoesDeposit(c: Amounts, k: EProcessable, amount: int)
    ensures Withdraw(Deposit(c, k, amount), k, amount).Some? <==> Get(c, k) >= 0
    ensures Get(c, k) >= 0 ==> Withdraw(Deposit(c, k, amount), k, amount).value == c[k := Get(c, k)]
  {
  }

  // ----- GetEntityResources -----

  /** The sum of the amounts of the kinds in ks, in that order. */
  function SumKeys(c: Amounts, ks: seq<EProcessable>): int
  {
    if ks == [] then 0 else SumKeys(c, ks[..|ks| - 1]) + Get(c, ks[|ks| - 1])
  }

  /** Everything an entity carries, summed over every kind. */
  function SumCarried(c: Amounts): int
  {
    SumKeys(c, AllKinds)
  }

  /** Nothing carried sums to zero, so the early return of GetEntityResources agrees with the sum. */
  lemma {:induction false} EmptySum(c: Amounts, ks: seq<EProcessable>)
    requires c == map[]
    ensures SumKeys(c, ks) == 0
  {
    if ks != [] {
      EmptySum(c, ks[..|ks| - 1]);
    }
  }

  /** Changing one kind that ks lists once changes the sum by the difference. */
  lemma {:induction false} SumKeysUpdate(c: Amounts, ks: seq<EProcessable>, k: EProcessable, v: int)
    requires Distinct(ks)
    ensures SumKeys(c[k := v], ks) == SumKeys(c, ks) + (if k in ks then v - Get(c, k) else 0)
  {
    if ks != [] {
      var prefix := ks[..|ks| - 1];
      SumKeysUpdate(c, prefix, k, v);
      assert k in ks <==> k in prefix || k == ks[|ks| - 1];
      assert ks[|ks| - 1] !in prefix;
    }
  }

  /** AddToEntity raises the carried total by the amount. */
  lemma DepositRaisesSum(c: Amounts, k: EProcessable, amount: int)
    ensures SumCarried(Deposit(c, k, amount)) == SumCarried(c) + amount
  {
    AllKindsListsEveryKind();
    SumKeysUpdate(c, AllKinds, k, Get(c, k) + amount);
  }

  /** A successful RemoveFromEntity lowers the carried total by the amount. */
  lemma WithdrawLowersSum(c: Amounts, k: EProcessable, amount: int)
    requires Withdraw(c, k, amount).Some?
    ensures SumCarried(Withdraw(c, k, amount).value) == SumCarried(c) - amount
  {
    AllKindsListsEveryKind();
    SumKeysUpdate(c, AllKinds, k, c[k] - amount);
  }

  // ----- GetTotalStored -----

  /** The kinds GetTotalStored always reports, each starting at 0. */
  function BaseTotals(): (t: Amounts)
    ensures t.Keys == {Gold, Wood, Stone, Food}
    ensures forall k :: k in t ==> t[k] == 0
  {
    map[Gold := 0, Wood := 0, Stone := 0, Food := 0]
  }

  /**
   * One depot's carried amounts added into the totals, over the kinds in
   * ks: every carried kind gets an entry, and only positive amounts are
   * added.
   */
  function CreditKeys(t: Amounts, c: Amounts, ks: seq<EProcessable>): Amounts
  {
    if ks == [] then t
    else
      var r := CreditKeys(t, c, ks[..|ks| - 1]);
      var k := ks[|ks| - 1];
      if k !in c then r
      else
        var r1 := if k in r then r else r[k := 0];
        if c[k] > 0 then r1[k := r1[k] + c[k]] else r1
  }

  /**
   * CreditKeys over keys listed once, for one kind k: the kind has an entry
   * afterwards when it had one or is a listed carried kind, and then gains
   * the positive part of the carried amount.
   */
  lemma {:induction false} CreditKeysAt(t: Amounts, c: Amounts, ks: seq<EProcessable>, k: EProcessable)
    requires Distinct(ks)
    ensures var r := CreditKeys(t, c, ks);
            && (k in r <==> k in t || (k in c && k in ks))
            && (k in r ==> r[k] == Get(t, k) + (if k in c && k in ks then Max0(c[k]) else 0))
  {
    if ks != [] {
      var prefix := ks[..|ks| - 1];
      CreditKeysAt(t, c, prefix, k);
      assert k in ks <==> k in prefix || k == ks[|ks| - 1];
      assert ks[|ks| - 1] !in prefix;
    }
  }

  /** The positive amount of kind k a handle contributes: 0 unless it is live with a resource fragment. */
  function CarriedAt(ents: Directory, h: Handle, k: EProcessable): nat
  {
    if h in ents && ents[h].resource.Some? && k in ents[h].resource.value.carrying
    then Max0(ents[h].resource.value.carrying[k]) else 0
  }

  /** Whether handle h is live, has a resource fragment, and has an entry for kind k. */
  predicate HasKind(ents: Directory, h: Handle, k: EProcessable)
  {
    h in ents && ents[h].resource.Some? && k in ents[h].resource.value.carrying
  }

  /** Whether some handle among hs is live, has a resource fragment, and has an entry for kind k. */
  predicate AnyHasKind(ents: Directory, hs: seq<Handle>, k: EProcessable)
  {
    hs != [] && (AnyHasKind(ents, hs[..|hs| - 1], k) || HasKind(ents, hs[|hs| - 1], k))
  }

  /** The independent reference: the stored amount of one kind, summed over the depot handles. */
  function Stored(ents: Directory, hs: seq<Handle>, k: EProcessable): nat
  {
    if hs == [] then 0 else Stored(ents, hs[..|hs| - 1], k) + CarriedAt(ents, hs[|hs| - 1], k)
  }

  /** GetTotalStored's walk over the storage handles (skipping invalid ones and ones without resources). */
  function Totals(ents: Directory, hs: seq<Handle>): Amounts
  {
    if hs == [] then BaseTotals()
    else
      var t := Totals(ents, hs[..|hs| - 1]);
      var h := hs[|hs| - 1];
      if h in ents && ents[h].resource.Some? then CreditKeys(t, ents[h].resource.value.carrying, AllKinds)
      else t
  }

  /** A kind no depot has an entry for is stored nowhere. */
  lemma {:induction false} NothingStoredWithoutEntry(ents: Directory, hs: seq<Handle>, k: EProcessable)
    requires !AnyHasKind(ents, hs, k)
    ensures Stored(ents, hs, k) == 0
  {
    if hs != [] {
      NothingStoredWithoutEntry(ents, hs[..|hs| - 1], k);
    }
  }

  /**
   * For one kind: the totals report it when it is a base kind or some live
   * depot has an entry for it, and its amount is the sum of the positive
   * amounts the depots carry.
   */
  lemma {:induction false} TotalsAt(ents: Directory, hs: seq<Handle>, k: EProcessable)
    ensures var t := Totals(ents, hs);
            && (k in t <==> k in BaseTotals() || AnyHasKind(ents, hs, k))
            && (k in t ==> t[k] == Stored(ents, hs, k))
  {
    if hs != [] {
      var prefix := hs[..|hs| - 1];
      var h := hs[|hs| - 1];
      TotalsAt(ents, prefix, k);
      if h in ents && ents[h].resource.Some? {
        AllKindsListsEveryKind();
        CreditKeysAt(Totals(ents, prefix), ents[h].resource.value.carrying, AllKinds, k);
        if k !in Totals(ents, prefix) {
          NothingStoredWithoutEntry(ents, prefix, k);
        }
      }
    }
  }

  /** GetTotalStored's totals are the stored amounts, and so never negative. */
  lemma TotalsAreStored(ents: Directory, hs: seq<Handle>)
    ensures var t := Totals(ents, hs);
            && (forall k :: k in t <==> k in BaseTotals() || AnyHasKind(ents, hs, k))
            && (forall k :: k in t ==> t[k] == Stored(ents, hs, k) && t[k] >= 0)
  {
    forall k
      ensures var t := Totals(ents, hs);
              && (k in t <==> k in BaseTotals() || AnyHasKind(ents, hs, k))
              && (k in t ==> t[k] == Stored(ents, hs, k))
    {
      TotalsAt(ents, hs, k);
    }
  }

  // ----- LowerResource -----

  /** LowerResource's first loop: every cost kind is reported and covered by its total. */
  predicate Affordable(totals: Amounts, cost: Amounts)
  {
    forall k :: k in cost ==> k in totals && totals[k] - cost[k] >= 0
  }

  /**
   * One depot paying towards the cost, kind by kind over ks: for a kind in
   * both maps the lesser of the carried amount and the remaining cost is
   * taken from both.
   */
  function SettleKeys(c: Amounts, cost: Amounts, ks: seq<EProcessable>): (r: (Amounts, Amounts))
    ensures r.0.Keys == c.Keys && r.1.Keys == cost.Keys
  {
    if ks == [] then (c, cost)
    else
      var r := SettleKeys(c, cost, ks[..|ks| - 1]);
      var k := ks[|ks| - 1];
      if k in r.0 && k in r.1 then
        var m := IMin(r.0[k], r.1[k]);
        (r.0[k := r.0[k] - m], r.1[k := r.1[k] - m])
      else r
  }

  /** SettleKeys over keys listed once, for one kind: a listed kind in both maps loses the lesser amount from both. */
  lemma {:induction false} SettleKeysAt(c: Amounts, cost: Amounts, ks: seq<EProcessable>, k: EProcessable)
    requires Distinct(ks)
    ensures var r := SettleKeys(c, cost, ks);
            && (k in c ==> r.0[k] == (if k in cost && k in ks then c[k] - IMin(c[k], cost[k]) else c[k]))
            && (k in cost ==> r.1[k] == (if k in c && k in ks then cost[k] - IMin(c[k], cost[k]) else cost[k]))
  {
    if ks != [] {
      var prefix := ks[..|ks| - 1];
      SettleKeysAt(c, cost, prefix, k);
      assert k in ks <==> k in prefix || k == ks[|ks| - 1];
      assert ks[|ks| - 1] !in prefix;
    }
  }

  /**
   * LowerResource's second loop: the depots pay in order, each reading
   * what the earlier ones left; the result is the new directory and the
   * cost still unpaid.
   */
  function Lowered(ents: Directory, hs: seq<Handle>, cost: Amounts): (r: (Directory, Amounts))
    ensures r.0.Keys == ents.Keys && r.1.Keys == cost.Keys
  {
    if hs == [] then (ents, cost)
    else PayFrom(Lowered(ents, hs[..|hs| - 1], cost), hs[|hs| - 1])
  }

  /** One depot h paying towards the cost, when it is live and has a resource fragment. */
  function PayFrom(q: (Directory, Amounts), h: Handle): (r: (Directory, Amounts))
    ensures r.0.Keys == q.0.Keys && r.1.Keys == q.1.Keys
  {
    if h in q.0 && q.0[h].resource.Some? then
      var s := SettleKeys(q.0[h].resource.value.carrying, q.1, AllKinds);
      (q.0[h := WithCarrying(q.0[h], s.0)], s.1)
    else q
  }

  /**
   * Paying changes only the carried amounts of the depots listed: any
   * other entity, every other fragment and the set of live handles stay.
   */
  lemma {:induction false} LoweredFrame(ents: Directory, hs: seq<Handle>, cost: Amounts, h: Handle)
    requires h in ents
    ensures var r := Lowered(ents, hs, cost);
            && (h !in hs ==> r.0[h] == ents[h])
            && r.0[h].resource.Some? == ents[h].resource.Some?
            && r.0[h].(resource := ents[h].resource) == ents[h]
  {
    if hs != [] {
      LoweredFrame(ents, hs[..|hs| - 1], cost, h);
      assert h !in hs ==> h !in hs[..|hs| - 1];
    }
  }

  /** Every carried amount of every live entity is at least zero. */
  predicate CarriedNonNegative(ents: Directory)
  {
    forall h, k :: h in ents && ents[h].resource.Some? && k in ents[h].resource.value.carrying ==>
      ents[h].resource.value.carrying[k] >= 0
  }

  predicate CostNonNegative(cost: Amounts)
  {
    forall k :: k in cost ==> cost[k] >= 0
  }

  /** One depot paying, for one kind: the depot and the cost both lose the lesser of the two amounts. */
  lemma PayFromAt(q: (Directory, Amounts), h: Handle, k: EProcessable)
    requires k in q.1
    ensures var r := PayFrom(q, h);
            if HasKind(q.0, h, k) then
                 var c := q.0[h].resource.value.carrying[k];
                 CarriedAt(r.0, h, k) == Max0(c - IMin(c, q.1[k])) && r.1[k] == q.1[k] - IMin(c, q.1[k])
               else CarriedAt(r.0, h, k) == CarriedAt(q.0, h, k) && r.1[k] == q.1[k]
  {
    if h in q.0 && q.0[h].resource.Some? {
      AllKindsListsEveryKind();
      SettleKeysAt(q.0[h].resource.value.carrying, q.1, AllKinds, k);
    }
  }

  /** A depot paying changes no other entity. */
  lemma PayFromOthers(q: (Directory, Amounts), h: Handle)
    ensures forall x :: x in q.0 && x != h ==> PayFrom(q, h).0[x] == q.0[x]
  {
  }

  /** Stored is unaffected by an entity not among the handles. */
  lemma {:induction false} StoredElsewhere(a: Directory, b: Directory, hs: seq<Handle>, h: Handle, k: EProcessable)
    requires h !in hs && a.Keys == b.Keys
    requires forall x :: x in a && x != h ==> a[x] == b[x]
    ensures Stored(a, hs, k) == Stored(b, hs, k)
  {
    if hs != [] {
      StoredElsewhere(a, b, hs[..|hs| - 1], h, k);
    }
  }

  /**
   * With no negative amounts, depots listed once pay exactly what they
   * can: the unpaid cost of each kind is what the depots could not cover.
   */
  lemma {:induction false} LoweredCost(ents: Directory, hs: seq<Handle>, cost: Amounts, k: EProcessable)
    requires Distinct(hs) && CarriedNonNegative(ents) && CostNonNegative(cost) && k in cost
    ensures Lowered(ents, hs, cost).1[k] == Max0(cost[k] - Stored(ents, hs, k))
  {
    if hs != [] {
      var prefix := hs[..|hs| - 1];
      var h := hs[|hs| - 1];
      LoweredCost(ents, prefix, cost, k);
      if h in ents {
        LoweredFrame(ents, prefix, cost, h);
      }
      PayFromAt(Lowered(ents, prefix, cost), h, k);
      assert h !in prefix;
    }
  }

  /**
   * With no negative amounts, depots listed once keep what the cost did
   * not take: their stored amount of each cost kind drops by the part of
   * the cost they covered.
   */
  lemma {:induction false} LoweredKeeps(ents: Directory, hs: seq<Handle>, cost: Amounts, k: EProcessable)
    requires Distinct(hs) && CarriedNonNegative(ents) && CostNonNegative(cost) && k in cost
    ensures Stored(Lowered(ents, hs, cost).0, hs, k) == Max0(Stored(ents, hs, k) - cost[k])
  {
    if hs != [] {
      var prefix := hs[..|hs| - 1];
      var h := hs[|hs| - 1];
      var q := Lowered(ents, prefix, cost);
      assert h !in prefix;
      assert hs == prefix + [h];
      assert Stored(q.0, prefix, k) == Max0(Stored(ents, prefix, k) - cost[k]) by {
        LoweredKeeps(ents, prefix, cost, k);
      }
      assert q.1[k] == Max0(cost[k] - Stored(ents, prefix, k)) by {
        LoweredCost(ents, prefix, cost, k);
      }
      assert h in ents ==> q.0[h] == ents[h] by {
        if h in ents {
          LoweredFrame(ents, prefix, cost, h);
        }
      }
      PayFromAt(q, h, k);
      PayFromOthers(q, h);
      PayStepKeeps(ents, q.0, PayFrom(q, h).0, prefix, h, cost[k], q.1[k], k);
    }
  }

  /**
   * One more depot h paying, for kind k, stated over the directories
   * before (`qd`) and after (`rd`) the payment: when the earlier depots
   * kept what the cost left them, h had not paid yet and h paid the lesser
   * of its amount and what was still owed, the depots including h keep
   * what the cost leaves them.
   */
  lemma {:induction false} PayStepKeeps(ents: Directory, qd: Directory, rd: Directory, prefix: seq<Handle>, h: Handle,
                                         cost: int, owed: int, k: EProcessable)
    requires h !in prefix && qd.Keys == ents.Keys && rd.Keys == qd.Keys && 0 <= cost
    requires h in ents ==> qd[h] == ents[h]
    requires HasKind(ents, h, k) ==> ents[h].resource.value.carrying[k] >= 0
    requires forall x :: x in qd && x != h ==> rd[x] == qd[x]
    requires HasKind(qd, h, k) ==>
               var c := qd[h].resource.value.carrying[k];
               CarriedAt(rd, h, k) == Max0(c - IMin(c, owed))
    requires !HasKind(qd, h, k) ==> CarriedAt(rd, h, k) == CarriedAt(qd, h, k)
    requires Stored(qd, prefix, k) == Max0(Stored(ents, prefix, k) - cost)
    requires owed == Max0(cost - Stored(ents, prefix, k))
    ensures Stored(rd, prefix + [h], k) == Max0(Stored(ents, prefix, k) + CarriedAt(ents, h, k) - cost)
  {
    PaidShare(ents, qd, rd, h, owed, k);
    StoredSnoc(qd, rd, prefix, h, k);
    PayArithmetic(Stored(ents, prefix, k), CarriedAt(ents, h, k), cost, owed, Stored(qd, prefix, k),
                  CarriedAt(rd, h, k), Stored(rd, prefix + [h], k));
  }

  /** The depots up to h after h paid: the earlier depots as they were, plus what h keeps. */
  lemma {:induction false} StoredSnoc(qd: Directory, rd: Directory, prefix: seq<Handle>, h: Handle, k: EProcessable)
    requires h !in prefix && rd.Keys == qd.Keys
    requires forall x :: x in qd && x != h ==> rd[x] == qd[x]
    ensures Stored(rd, prefix + [h], k) == Stored(qd, prefix, k) + CarriedAt(rd, h, k)
  {
    StoredElsewhere(qd, rd, prefix, h, k);
    assert (prefix + [h])[..|prefix|] == prefix;
  }

  /** What depot h keeps of kind k after paying: its amount less the lesser of that amount and what is owed. */
  lemma PaidShare(ents: Directory, qd: Directory, rd: Directory, h: Handle, owed: int, k: EProcessable)
    requires qd.Keys == ents.Keys && 0 <= owed
    requires h in ents ==> qd[h] == ents[h]
    requires HasKind(ents, h, k) ==> ents[h].resource.value.carrying[k] >= 0
    requires HasKind(qd, h, k) ==>
               var c := qd[h].resource.value.carrying[k];
               CarriedAt(rd, h, k) == Max0(c - IMin(c, owed))
    requires !HasKind(qd, h, k) ==> CarriedAt(rd, h, k) == CarriedAt(qd, h, k)
    ensures CarriedAt(rd, h, k) == Max0(CarriedAt(ents, h, k) - IMin(CarriedAt(ents, h, k), owed))
  {
    var c := CarriedAt(ents, h, k);
    if HasKind(qd, h, k) {
      var c0 := qd[h].resource.value.carrying[k];
      assert CarriedAt(rd, h, k) == Max0(c0 - IMin(c0, owed));
      assert c0 == ents[h].resource.value.carrying[k];
      assert c == c0;
    } else {
      assert c == 0;
    }
  }

  /** The depot's share after paying, added to what the earlier depots kept. */
  lemma PayArithmetic(before: int, c: int, cost: int, owed: int, kept: int, after: int, total: int)
    requires 0 <= before && 0 <= c && 0 <= cost
    requires owed == Max0(cost - before) && kept == Max0(before - cost)
    requires after == Max0(c - IMin(c, owed)) && total == kept + after
    ensures total == Max0(before + c - cost)
  {
  }

  /**
   * With no negative amounts and depots listed once, a cost LowerResource
   * accepts is paid in full.
   */
  lemma {:induction false} AffordableIsPaid(ents: Directory, hs: seq<Handle>, cost: Amounts)
    requires Distinct(hs) && CarriedNonNegative(ents) && CostNonNegative(cost)
    requires Affordable(Totals(ents, hs), cost)
    ensures forall k :: k in cost ==> Lowered(ents, hs, cost).1[k] == 0
  {
    forall k | k in cost
      ensures Lowered(ents, hs, cost).1[k] == 0
    {
      TotalsAt(ents, hs, k);
      LoweredCost(ents, hs, cost, k);
    }
  }

  /** One depot paying keeps every carried amount and every owed amount at zero or more. */
  lemma PayFromNonNegative(q: (Directory, Amounts), h: Handle)
    requires CarriedNonNegative(q.0) && CostNonNegative(q.1)
    ensures CarriedNonNegative(PayFrom(q, h).0) && CostNonNegative(PayFrom(q, h).1)
  {
    if h in q.0 && q.0[h].resource.Some? {
      var c := q.0[h].resource.value.carrying;
      var s := SettleKeys(c, q.1, AllKinds);
      AllKindsListsEveryKind();
      forall k | k in s.0
        ensures s.0[k] >= 0
      {
        SettleKeysAt(c, q.1, AllKinds, k);
      }
      forall k | k in s.1
        ensures s.1[k] >= 0
      {
        SettleKeysAt(c, q.1, AllKinds, k);
      }
    }
  }

  /** LowerResource never drives a carried amount below zero, nor overpays a cost. */
  lemma {:induction false} LoweredStaysNonNegative(ents: Directory, hs: seq<Handle>, cost: Amounts)
    requires CarriedNonNegative(ents) && CostNonNegative(cost)
    ensures CarriedNonNegative(Lowered(ents, hs, cost).0) && CostNonNegative(Lowered(ents, hs, cost).1)
  {
    if hs != [] {
      LoweredStaysNonNegative(ents, hs[..|hs| - 1], cost);
      PayFromNonNegative(Lowered(ents, hs[..|hs| - 1], cost), hs[|hs| - 1]);
    }
  }

  /**
   * A cost LowerResource accepts is taken out in full: with no negative
   * amounts and depots listed once, the stored amount of each cost kind
   * drops by exactly its cost.
   */
  lemma {:induction false} LowerResourceDeducts(ents: Directory, hs: seq<Handle>, cost: Amounts, k: EProcessable)
    requires Distinct(hs) && CarriedNonNegative(ents) && CostNonNegative(cost)
    requires Affordable(Totals(ents, hs), cost) && k in cost
    ensures Stored(Lowered(ents, hs, cost).0, hs, k) == Stored(ents, hs, k) - cost[k]
  {
    assert Stored(ents, hs, k) >= cost[k] by {
      var t := Totals(ents, hs);
      assert k in t && t[k] >= cost[k];
      TotalsAt(ents, hs, k);
    }
    LoweredKeeps(ents, hs, cost, k);
  }
}
