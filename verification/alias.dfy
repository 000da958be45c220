/**
 * `WeightedRandomSelector`: Walker/Vose alias-table construction over two
 * worklists, and the O(1) draw from the table. Weights are exact reals; the
 * two random numbers of a draw are parameters.
 */
module Alias {
  import opened Wrappers
  import opened Numeric

  /** One alias-table slot: accept the slot's own outcome with `prob`, else take `alias`. */
  datatype Entry = Entry(alias: nat, prob: real)

  /** A cell of a reference-data row: a number or a text. */
  datatype Cell = Num(number: real) | Text(text: string)

  datatype Selector = Selector(aliasTable: seq<Entry>, outcomes: seq<string>)

  /** The sum of the values, folded from the left starting at 0. */
  function Sum(s: seq<real>): real {
    if |s| == 0 then 0.0 else Sum(s[..|s| - 1]) + s[|s| - 1]
  }

  predicate AllPositive(w: seq<real>) {
    forall i :: 0 <= i < |w| ==> w[i] > 0.0
  }

  /**
   * Weights the construction is meant for: at least one, none negative, and
   * a positive total (otherwise the normalization divides by zero).
   */
  predicate ValidWeights(w: seq<real>) {
    |w| > 0 && (forall i :: 0 <= i < |w| ==> w[i] >= 0.0) && Sum(w) > 0.0
  }

  lemma {:induction false} SumPositive(w: seq<real>)
    requires |w| > 0 && AllPositive(w)
    ensures Sum(w) > 0.0
    decreases |w|
  {
    var init := w[..|w| - 1];
    if |init| > 0 {
      assert forall i :: 0 <= i < |init| ==> init[i] == w[i];
      SumPositive(init);
    }
  }

  /** A weight scaled so that the weights of `length` outcomes average 1. */
  function Share(weight: real, length: real, total: real): real
    requires total != 0.0
  {
    (weight * length) / total
  }

  /** Every weight scaled by the number of weights over their sum. */
  function Normalize(w: seq<real>, total: real): (r: seq<real>)
    requires total != 0.0
    ensures |r| == |w|
    ensures forall i :: 0 <= i < |w| ==> r[i] == Share(w[i], |w| as real, total)
  {
    seq(|w|, i requires 0 <= i < |w| => Share(w[i], |w| as real, total))
  }

  lemma ShareAdd(a: real, b: real, c: real, total: real)
    requires total != 0.0
    ensures Share(a, c, total) + Share(b, c, total) == Share(a + b, c, total)
  {
  }

  lemma ShareOfTotal(total: real, c: real)
    requires total != 0.0
    ensures Share(total, c, total) == c
  {
    Cancel(total, c);
  }

  lemma {:induction false} SumShares(w: seq<real>, r: seq<real>, c: real, total: real)
    requires total != 0.0 && |r| == |w|
    requires forall i :: 0 <= i < |w| ==> r[i] == Share(w[i], c, total)
    ensures Sum(r) == Share(Sum(w), c, total)
    decreases |w|
  {
    if |w| > 0 {
      var k := |w| - 1;
      SumShares(w[..k], r[..k], c, total);
      ShareAdd(Sum(w[..k]), w[k], c, total);
    }
  }

  /** The normalized weights average 1: they sum to the number of outcomes. */
  lemma NormalizedSum(w: seq<real>)
    requires Sum(w) != 0.0
    ensures Sum(Normalize(w, Sum(w))) == |w| as real
  {
    var total := Sum(w);
    var n := |w| as real;
    var r := Normalize(w, total);
    SumShares(w, r, n, total);
    ShareOfTotal(total, n);
  }

  /*
   * Bookkeeping of the construction. The table under construction is a
   * sequence of optional entries (`None` = not yet assigned); `nw` holds the
   * current normalized weights.
   */

  /** Sum of the current weights of the indices below `k` that have no entry yet. */
  function PendingSum(t: seq<Option<Entry>>, nw: seq<real>, k: nat): real
    requires k <= |t| == |nw|
  {
    if k == 0 then 0.0
    else PendingSum(t, nw, k - 1) + (if t[k - 1].None? then nw[k - 1] else 0.0)
  }

  /** Number of indices below `k` that have no entry yet. */
  function PendingCount(t: seq<Option<Entry>>, k: nat): nat
    requires k <= |t|
  {
    if k == 0 then 0
    else PendingCount(t, k - 1) + (if t[k - 1].None? then 1 else 0)
  }

  lemma {:induction false} PendingOfEmptyTable(t: seq<Option<Entry>>, nw: seq<real>, k: nat)
    requires k <= |t| == |nw|
    requires forall i :: 0 <= i < |t| ==> t[i].None?
    ensures PendingSum(t, nw, k) == Sum(nw[..k])
    ensures PendingCount(t, k) == k
  {
    if k > 0 {
      PendingOfEmptyTable(t, nw, k - 1);
      assert nw[..k][..k - 1] == nw[..k - 1];
    }
  }

  /** Assigning the entry of a pending index removes its weight and its count. */
  lemma {:induction false} PendingAfterAssign(t: seq<Option<Entry>>, nw: seq<real>, s: nat, e: Entry, k: nat)
    requires k <= |t| == |nw| && s < |t| && t[s].None?
    ensures PendingSum(t[s := Some(e)], nw, k) == PendingSum(t, nw, k) - (if s < k then nw[s] else 0.0)
    ensures PendingCount(t[s := Some(e)], k) == PendingCount(t, k) - (if s < k then 1 else 0)
  {
    if k > 0 {
      PendingAfterAssign(t, nw, s, e, k - 1);
    }
  }

  /** Changing the weight of a pending index changes the pending sum by the difference. */
  lemma {:induction false} PendingAfterReweigh(t: seq<Option<Entry>>, nw: seq<real>, l: nat, v: real, k: nat)
    requires k <= |t| == |nw| && l < |t| && t[l].None?
    ensures PendingSum(t, nw[l := v], k) == PendingSum(t, nw, k) + (if l < k then v - nw[l] else 0.0)
  {
    if k > 0 {
      PendingAfterReweigh(t, nw, l, v, k - 1);
    }
  }

  /** When every pending weight is at least 1, the pending sum is at least the pending count, by `nw[i] - 1` for each pending `i`. */
  lemma {:induction false} PendingAtLeastOne(t: seq<Option<Entry>>, nw: seq<real>, k: nat, i: int)
    requires k <= |t| == |nw|
    requires forall j :: 0 <= j < |t| && t[j].None? ==> nw[j] >= 1.0
    ensures PendingSum(t, nw, k) >= PendingCount(t, k) as real
    ensures 0 <= i < k && t[i].None? ==> PendingSum(t, nw, k) - PendingCount(t, k) as real >= nw[i] - 1.0
  {
    if k > 0 {
      PendingAtLeastOne(t, nw, k - 1, i);
    }
  }

  /** When every pending weight is below 1, a pending index makes the pending sum fall short of the count. */
  lemma {:induction false} PendingBelowOne(t: seq<Option<Entry>>, nw: seq<real>, k: nat, i: int)
    requires k <= |t| == |nw|
    requires forall j :: 0 <= j < |t| && t[j].None? ==> nw[j] < 1.0
    ensures PendingSum(t, nw, k) <= PendingCount(t, k) as real
    ensures 0 <= i < k && t[i].None? ==> PendingSum(t, nw, k) < PendingCount(t, k) as real
  {
    if k > 0 {
      PendingBelowOne(t, nw, k - 1, i);
    }
  }

  /** What slot `j` passes to outcome `i`: the rejected share `1 - prob` when it aliases `i`. */
  function Passed(e: Entry, j: int, i: int): real {
    if e.alias == i && j != i then 1.0 - e.prob else 0.0
  }

  /** What slot `j` of a table under construction passes to outcome `i`; nothing while unassigned. */
  function Contribution(e: Option<Entry>, j: int, i: int): real {
    match e
    case None => 0.0
    case Some(x) => Passed(x, j, i)
  }

  /**
   * Mass that the assigned slots below `k` of a table under construction pass
   * on to outcome `i`; on a finished table it is `ReceivedUpTo` (`DonatedIsReceived`).
   */
  function DonatedTo(t: seq<Option<Entry>>, i: int, k: nat): real
    requires k <= |t|
  {
    if k == 0 then 0.0 else DonatedTo(t, i, k - 1) + Contribution(t[k - 1], k - 1, i)
  }

  lemma {:induction false} DonatedAfterUpdate(t: seq<Option<Entry>>, s: nat, x: Option<Entry>, i: int, k: nat)
    requires k <= |t| && s < |t|
    ensures DonatedTo(t[s := x], i, k)
         == DonatedTo(t, i, k) + (if s < k then Contribution(x, s, i) - Contribution(t[s], s, i) else 0.0)
  {
    if k > 0 {
      DonatedAfterUpdate(t, s, x, i, k - 1);
    }
  }

  /** The probability mass outcome `i` currently holds in its own slot. */
  function Held(t: seq<Option<Entry>>, nw: seq<real>, i: nat): real
    requires i < |t| == |nw|
  {
    match t[i]
    case Some(e) => e.prob
    case None => nw[i]
  }

  /** A finished slot: a valid alias, a probability in [0, 1], and self-alias exactly when the probability is 1. */
  predicate ValidEntry(e: Entry, i: int, n: nat) {
    e.alias < n && 0.0 <= e.prob <= 1.0 && (e.alias == i <==> e.prob == 1.0)
  }

  predicate Distinct(s: seq<nat>) {
    forall a, b :: 0 <= a < b < |s| ==> s[a] != s[b]
  }

  /** Small indices weigh less than 1, large ones at least 1; neither list repeats an index. */
  ghost predicate Worklists(n: nat, nw: seq<real>, small: seq<nat>, large: seq<nat>) {
    && |nw| == n
    && (forall k :: 0 <= k < |small| ==> small[k] < n && 0.0 <= nw[small[k]] < 1.0)
    && (forall k :: 0 <= k < |large| ==> large[k] < n && nw[large[k]] >= 1.0)
    && Distinct(small) && Distinct(large)
  }

  /** An index has no entry yet exactly when it is on one of the worklists. */
  ghost predicate Partition(n: nat, t: seq<Option<Entry>>, small: seq<nat>, large: seq<nat>) {
    |t| == n && forall i :: 0 <= i < n ==> (t[i].None? <==> (i in small || i in large))
  }

  ghost predicate Entries(n: nat, t: seq<Option<Entry>>) {
    |t| == n && forall i :: 0 <= i < n && t[i].Some? ==> ValidEntry(t[i].value, i, n)
  }

  /** The pending weights sum to their count. */
  ghost predicate Conserved(n: nat, t: seq<Option<Entry>>, nw: seq<real>) {
    |t| == n && |nw| == n && PendingSum(t, nw, n) == PendingCount(t, n) as real
  }

  /** Every outcome holds, in its own slot plus what aliases pass to it, its target mass. */
  ghost predicate MassKept(n: nat, t: seq<Option<Entry>>, nw: seq<real>, target: seq<real>) {
    |t| == n && |nw| == n && |target| == n
    && forall i :: 0 <= i < n ==> Held(t, nw, i) + DonatedTo(t, i, n) == target[i]
  }

  /** The invariant of the construction loops. */
  ghost predicate Inv(n: nat, t: seq<Option<Entry>>, nw: seq<real>, small: seq<nat>, large: seq<nat>, target: seq<real>) {
    Worklists(n, nw, small, large) && Partition(n, t, small, large) && Entries(n, t)
    && Conserved(n, t, nw) && MassKept(n, t, nw, target)
  }

  /** The state after one round of the pairing loop. */
  ghost predicate Paired(t: seq<Option<Entry>>, nw: seq<real>, small: seq<nat>, large: seq<nat>,
                         t': seq<Option<Entry>>, nw': seq<real>, small': seq<nat>, large': seq<nat>)
    requires |small| > 0 && |large| > 0
    requires small[|small| - 1] < |t| && small[|small| - 1] < |nw| && large[|large| - 1] < |nw|
  {
    var s, l := small[|small| - 1], large[|large| - 1];
    && t' == t[s := Some(Entry(l, nw[s]))]
    && nw' == nw[l := nw[l] + nw[s] - 1.0]
    && (if nw'[l] < 1.0 then small' == small[..|small| - 1] + [l] && large' == large[..|large| - 1]
        else small' == small[..|small| - 1] && large' == large[..|large| - 1] + [l])
  }

  lemma PairWorklists(n: nat, t: seq<Option<Entry>>, nw: seq<real>, small: seq<nat>, large: seq<nat>,
                      t': seq<Option<Entry>>, nw': seq<real>, small': seq<nat>, large': seq<nat>)
    requires Worklists(n, nw, small, large) && |t| == n && |small| > 0 && |large| > 0
    requires Paired(t, nw, small, large, t', nw', small', large')
    ensures Worklists(n, nw', small', large')
  {
    var s, l := small[|small| - 1], large[|large| - 1];
    var s0, l0 := small[..|small| - 1], large[..|large| - 1];
    assert small == s0 + [s] && large == l0 + [l];
    assert s != l;
    assert nw'[l] >= 0.0;
    forall k | 0 <= k < |small'|
      ensures small'[k] < n && 0.0 <= nw'[small'[k]] < 1.0
    {
      if k < |s0| {
        assert small'[k] == small[k];
        assert small[k] != l;
      }
    }
    forall k | 0 <= k < |large'|
      ensures large'[k] < n && nw'[large'[k]] >= 1.0
    {
      if k < |l0| {
        assert large'[k] == large[k];
        assert large[k] != l;
      }
    }
    assert l !in s0 && l !in l0;
  }

  lemma PairPartition(n: nat, t: seq<Option<Entry>>, nw: seq<real>, small: seq<nat>, large: seq<nat>,
                      t': seq<Option<Entry>>, nw': seq<real>, small': seq<nat>, large': seq<nat>)
    requires Worklists(n, nw, small, large) && Partition(n, t, small, large) && |small| > 0 && |large| > 0
    requires Paired(t, nw, small, large, t', nw', small', large')
    ensures Partition(n, t', small', large')
  {
    var s, l := small[|small| - 1], large[|large| - 1];
    var s0, l0 := small[..|small| - 1], large[..|large| - 1];
    assert small == s0 + [s] && large == l0 + [l];
    assert s != l;
    assert s !in s0 && l !in l0;
    assert s !in l0;
    forall i | 0 <= i < n
      ensures t'[i].None? <==> (i in small' || i in large')
    {
      if i != s && i != l {
        assert i in small <==> i in s0;
        assert i in large <==> i in l0;
      }
    }
  }

  lemma PairEntries(n: nat, t: seq<Option<Entry>>, nw: seq<real>, small: seq<nat>, large: seq<nat>,
                    t': seq<Option<Entry>>, nw': seq<real>, small': seq<nat>, large': seq<nat>)
    requires Worklists(n, nw, small, large) && Entries(n, t) && |small| > 0 && |large| > 0
    requires Paired(t, nw, small, large, t', nw', small', large')
    ensures Entries(n, t')
  {
    var s, l := small[|small| - 1], large[|large| - 1];
    assert s != l;
  }

  lemma PairConserved(n: nat, t: seq<Option<Entry>>, nw: seq<real>, small: seq<nat>, large: seq<nat>,
                      t': seq<Option<Entry>>, nw': seq<real>, small': seq<nat>, large': seq<nat>)
    requires Worklists(n, nw, small, large) && Partition(n, t, small, large) && Conserved(n, t, nw)
    requires |small| > 0 && |large| > 0
    requires Paired(t, nw, small, large, t', nw', small', large')
    ensures Conserved(n, t', nw')
  {
    var s, l := small[|small| - 1], large[|large| - 1];
    assert s != l;
    assert s in small && l in large;
    PendingAfterAssign(t, nw, s, Entry(l, nw[s]), n);
    PendingAfterReweigh(t', nw, l, nw[l] + nw[s] - 1.0, n);
  }

  lemma PairMass(n: nat, t: seq<Option<Entry>>, nw: seq<real>, small: seq<nat>, large: seq<nat>, target: seq<real>,
                 t': seq<Option<Entry>>, nw': seq<real>, small': seq<nat>, large': seq<nat>)
    requires Worklists(n, nw, small, large) && Partition(n, t, small, large) && MassKept(n, t, nw, target)
    requires |small| > 0 && |large| > 0
    requires Paired(t, nw, small, large, t', nw', small', large')
    ensures MassKept(n, t', nw', target)
  {
    var s, l := small[|small| - 1], large[|large| - 1];
    assert s != l;
    assert s in small && l in large;
    forall i | 0 <= i < n
      ensures Held(t', nw', i) + DonatedTo(t', i, n) == target[i]
    {
      DonatedAfterUpdate(t, s, Some(Entry(l, nw[s])), i, n);
    }
  }

  /** While a small index is waiting, some large index is still there to pair it with. */
  lemma SmallNeedsLarge(n: nat, t: seq<Option<Entry>>, nw: seq<real>, small: seq<nat>, large: seq<nat>)
    requires Worklists(n, nw, small, large) && Partition(n, t, small, large) && Conserved(n, t, nw)
    requires |small| > 0
    ensures |large| > 0
  {
    if |large| == 0 {
      forall j | 0 <= j < |t| && t[j].None?
        ensures nw[j] < 1.0
      {
        assert j in small;
        var k :| 0 <= k < |small| && small[k] == j;
      }
      assert t[small[0]].None?;
      PendingBelowOne(t, nw, n, small[0]);
    }
  }

  /**
   * Under exact arithmetic the pairing loop never ends with small indices
   * left over, and every large index left over weighs exactly 1.
   */
  lemma PairingEnd(n: nat, t: seq<Option<Entry>>, nw: seq<real>, small: seq<nat>, large: seq<nat>, target: seq<real>)
    requires Inv(n, t, nw, small, large, target)
    requires |small| == 0 || |large| == 0
    ensures |small| == 0
    ensures forall k :: 0 <= k < |large| ==> nw[large[k]] == 1.0
  {
    if |small| > 0 {
      SmallNeedsLarge(n, t, nw, small, large);
    }
    forall j | 0 <= j < |t| && t[j].None?
      ensures nw[j] >= 1.0
    {
      assert j in large;
      var k :| 0 <= k < |large| && large[k] == j;
    }
    forall k | 0 <= k < |large|
      ensures nw[large[k]] == 1.0
    {
      assert t[large[k]].None?;
      PendingAtLeastOne(t, nw, n, large[k]);
    }
  }

  /** One round of the loop over leftover large indices: probability 1, aliased to itself. */
  lemma SettleStep(n: nat, t: seq<Option<Entry>>, nw: seq<real>, small: seq<nat>, large: seq<nat>, target: seq<real>)
    requires Inv(n, t, nw, small, large, target) && |small| == 0 && |large| > 0
    requires forall k :: 0 <= k < |large| ==> nw[large[k]] == 1.0
    ensures var l := large[|large| - 1];
            && Inv(n, t[l := Some(Entry(l, 1.0))], nw, small, large[..|large| - 1], target)
            && forall k :: 0 <= k < |large| - 1 ==> nw[large[k]] == 1.0
  {
    var l := large[|large| - 1];
    var l0 := large[..|large| - 1];
    var t' := t[l := Some(Entry(l, 1.0))];
    assert large == l0 + [l];
    assert l !in l0;
    assert t[l].None?;
    forall i | 0 <= i < n
      ensures t'[i].None? <==> (i in small || i in l0)
    {
      if i != l {
        assert i in large <==> i in l0;
      }
    }
    PendingAfterAssign(t, nw, l, Entry(l, 1.0), n);
    forall i | 0 <= i < n
      ensures Held(t', nw, i) + DonatedTo(t', i, n) == target[i]
    {
      DonatedAfterUpdate(t, l, Some(Entry(l, 1.0)), i, n);
    }
  }

  /**
   * The `forEach` over the normalized weights: every index goes to exactly one
   * worklist, the small one when its weight is below 1, in increasing order.
   */
  method Classify(nw: seq<real>) returns (small: seq<nat>, large: seq<nat>)
    ensures forall k :: 0 <= k < |small| ==> small[k] < |nw| && nw[small[k]] < 1.0
    ensures forall k :: 0 <= k < |large| ==> large[k] < |nw| && nw[large[k]] >= 1.0
    ensures Distinct(small) && Distinct(large)
    ensures forall a, b :: 0 <= a < b < |small| ==> small[a] < small[b]
    ensures forall a, b :: 0 <= a < b < |large| ==> large[a] < large[b]
    ensures forall i :: 0 <= i < |nw| ==> (i in small <==> nw[i] < 1.0) && (i in large <==> nw[i] >= 1.0)
    ensures |small| + |large| == |nw|
  {
    small, large := [], [];
    var i := 0;
    while i < |nw|
      invariant 0 <= i <= |nw|
      invariant forall k :: 0 <= k < |small| ==> small[k] < i && nw[small[k]] < 1.0
      invariant forall k :: 0 <= k < |large| ==> large[k] < i && nw[large[k]] >= 1.0
      invariant forall a, b :: 0 <= a < b < |small| ==> small[a] < small[b]
      invariant forall a, b :: 0 <= a < b < |large| ==> large[a] < large[b]
      invariant forall j :: 0 <= j < i ==> (j in small <==> nw[j] < 1.0) && (j in large <==> nw[j] >= 1.0)
      invariant |small| + |large| == i
    {
      if nw[i] < 1.0 {
        small := small + [i];
      } else {
        large := large + [i];
      }
      i := i + 1;
    }
  }

  /** Mass the slots below `k` of a finished table pass to outcome `i` through their aliases. */
  function ReceivedUpTo(table: seq<Entry>, i: int, k: nat): real
    requires k <= |table|
  {
    if k == 0 then 0.0 else ReceivedUpTo(table, i, k - 1) + Passed(table[k - 1], k - 1, i)
  }

  /** The rejected shares of the other slots whose alias is `i`, summed. */
  function Received(table: seq<Entry>, i: int): real {
    ReceivedUpTo(table, i, |table|)
  }

  predicate Settled(t: seq<Option<Entry>>) {
    forall i :: 0 <= i < |t| ==> t[i].Some?
  }

  function Settle(t: seq<Option<Entry>>): (r: seq<Entry>)
    requires Settled(t)
    ensures |r| == |t| && forall i :: 0 <= i < |t| ==> t[i] == Some(r[i])
  {
    seq(|t|, i requires 0 <= i < |t| && Settled(t) => t[i].value)
  }

  lemma {:induction false} DonatedIsReceived(t: seq<Option<Entry>>, i: int, k: nat)
    requires Settled(t) && k <= |t|
    ensures DonatedTo(t, i, k) == ReceivedUpTo(Settle(t), i, k)
  {
    if k > 0 {
      DonatedIsReceived(t, i, k - 1);
    }
  }

  lemma {:induction false} DonatedOfEmptyTable(t: seq<Option<Entry>>, i: int, k: nat)
    requires k <= |t| && forall j :: 0 <= j < |t| ==> t[j].None?
    ensures DonatedTo(t, i, k) == 0.0
  {
    if k > 0 {
      DonatedOfEmptyTable(t, i, k - 1);
    }
  }

  lemma ShareOverLength(w: real, n: real, total: real)
    requires total != 0.0 && n != 0.0
    ensures Share(w, n, total) / n == w / total
  {
  }

  lemma ShareNonNegative(w: real, n: real, total: real)
    requires w >= 0.0 && n > 0.0 && total > 0.0
    ensures Share(w, n, total) >= 0.0
  {
  }

  /** Positive weights always qualify. */
  lemma PositiveWeightsValid(w: seq<real>)
    requires |w| > 0 && AllPositive(w)
    ensures ValidWeights(w)
  {
    SumPositive(w);
  }

  /** Before pairing: an empty table, the normalized weights, and the classified worklists. */
  lemma InitialInv(weights: seq<real>, t: seq<Option<Entry>>, nw: seq<real>, small: seq<nat>, large: seq<nat>)
    requires ValidWeights(weights)
    requires nw == Normalize(weights, Sum(weights))
    requires t == seq(|weights|, _ => None)
    requires forall k :: 0 <= k < |small| ==> small[k] < |nw| && nw[small[k]] < 1.0
    requires forall k :: 0 <= k < |large| ==> large[k] < |nw| && nw[large[k]] >= 1.0
    requires Distinct(small) && Distinct(large)
    requires forall i :: 0 <= i < |nw| ==> (i in small <==> nw[i] < 1.0) && (i in large <==> nw[i] >= 1.0)
    ensures Inv(|weights|, t, nw, small, large, nw)
  {
    var n := |weights|;
    NormalizedSum(weights);
    forall k | 0 <= k < |small|
      ensures 0.0 <= nw[small[k]]
    {
      ShareNonNegative(weights[small[k]], n as real, Sum(weights));
    }
    PendingOfEmptyTable(t, nw, n);
    assert nw[..n] == nw;
    forall i | 0 <= i < n
      ensures Held(t, nw, i) + DonatedTo(t, i, n) == nw[i]
    {
      DonatedOfEmptyTable(t, i, n);
    }
  }

  /** Once both worklists are empty the table is complete and carries exactly the normalized weights. */
  lemma FinalSettled(weights: seq<real>, t: seq<Option<Entry>>, nw: seq<real>, small: seq<nat>, large: seq<nat>)
    requires |weights| > 0 && Sum(weights) > 0.0
    requires Inv(|weights|, t, nw, small, large, Normalize(weights, Sum(weights)))
    requires |small| == 0 && |large| == 0
    ensures Settled(t) && |t| == |weights|
  {
  }

  lemma FinalTable(weights: seq<real>, t: seq<Option<Entry>>, nw: seq<real>, small: seq<nat>, large: seq<nat>,
                   table: seq<Entry>)
    requires |weights| > 0 && Sum(weights) > 0.0
    requires Inv(|weights|, t, nw, small, large, Normalize(weights, Sum(weights)))
    requires |small| == 0 && |large| == 0
    requires Settled(t) && table == Settle(t)
    ensures |table| == |weights|
    ensures forall i :: 0 <= i < |table| ==> ValidEntry(table[i], i, |table|)
    ensures forall i :: 0 <= i < |table| ==>
              (table[i].prob + Received(table, i)) / |table| as real == weights[i] / Sum(weights)
  {
    var n := |weights|;
    var target := Normalize(weights, Sum(weights));
    forall i | 0 <= i < n
      ensures (table[i].prob + Received(table, i)) / n as real == weights[i] / Sum(weights)
    {
      assert Held(t, nw, i) + DonatedTo(t, i, n) == target[i];
      DonatedIsReceived(t, i, n);
      ShareOverLength(weights[i], n as real, Sum(weights));
    }
  }

  /**
   * `buildAliasTable`. Every index gets exactly one entry; an entry's alias
   * is a valid index, its probability lies in [0, 1], and it aliases itself
   * exactly when its probability is 1. The table represents the weights
   * exactly: the chance that a draw yields outcome `i`, its own slot's
   * probability plus the rejected shares of the slots aliased to it, over `n`,
   * is `weights[i] / sum`.
   */
  method BuildAliasTable(weights: seq<real>) returns (table: seq<Entry>)
    requires ValidWeights(weights)
    ensures |table| == |weights|
    ensures forall i :: 0 <= i < |table| ==> ValidEntry(table[i], i, |table|)
    ensures forall i :: 0 <= i < |table| ==>
              (table[i].prob + Received(table, i)) / |table| as real == weights[i] / Sum(weights)
  {
    var n := |weights|;
    NormalizedSum(weights);
    var total := Sum(weights);
    var nw := Normalize(weights, total);
    ghost var target := nw;
    var small, large := Classify(nw);
    var t: seq<Option<Entry>> := seq(n, _ => None);
    InitialInv(weights, t, nw, small, large);
    while |small| > 0 && |large| > 0
      invariant Inv(n, t, nw, small, large, target)
      decreases |small| + |large|
    {
      var s := small[|small| - 1];
      var l := large[|large| - 1];
      var t', nw' := t[s := Some(Entry(l, nw[s]))], nw[l := nw[l] + nw[s] - 1.0];
      var small', large';
      if nw'[l] < 1.0 {
        small', large' := small[..|small| - 1] + [l], large[..|large| - 1];
      } else {
        small', large' := small[..|small| - 1], large[..|large| - 1] + [l];
      }
      PairWorklists(n, t, nw, small, large, t', nw', small', large');
      PairPartition(n, t, nw, small, large, t', nw', small', large');
      PairEntries(n, t, nw, small, large, t', nw', small', large');
      PairConserved(n, t, nw, small, large, t', nw', small', large');
      PairMass(n, t, nw, small, large, target, t', nw', small', large');
      t, nw, small, large := t', nw', small', large';
    }
    PairingEnd(n, t, nw, small, large, target);
    while |large| > 0
      invariant Inv(n, t, nw, small, large, target) && |small| == 0
      invariant forall k :: 0 <= k < |large| ==> nw[large[k]] == 1.0
      decreases |large|
    {
      var l := large[|large| - 1];
      SettleStep(n, t, nw, small, large, target);
      t := t[l := Some(Entry(l, 1.0))];
      large := large[..|large| - 1];
    }
    FinalSettled(weights, t, nw, small, large);
    table := Settle(t);
    FinalTable(weights, t, nw, small, large, table);
  }

  /** The table of a selector that represents `weights`, as `BuildAliasTable` promises. */
  ghost predicate Represents(table: seq<Entry>, weights: seq<real>)
    requires ValidWeights(weights)
  {
    && |table| == |weights|
    && (forall i :: 0 <= i < |table| ==> ValidEntry(table[i], i, |table|))
    && (forall i :: 0 <= i < |table| ==>
          (table[i].prob + Received(table, i)) / |table| as real == weights[i] / Sum(weights))
  }

  predicate RowsHave(data: seq<seq<Cell>>, weightIndex: nat, outcomeIndex: nat) {
    forall k :: 0 <= k < |data| ==>
      weightIndex < |data[k]| && data[k][weightIndex].Num? &&
      outcomeIndex < |data[k]| && data[k][outcomeIndex].Text?
  }

  /** The weight column of the rows, in row order. */
  function Weights(data: seq<seq<Cell>>, weightIndex: nat, outcomeIndex: nat): (r: seq<real>)
    requires RowsHave(data, weightIndex, outcomeIndex)
    ensures |r| == |data| && forall k :: 0 <= k < |data| ==> Num(r[k]) == data[k][weightIndex]
  {
    seq(|data|, k requires 0 <= k < |data| && RowsHave(data, weightIndex, outcomeIndex) =>
      data[k][weightIndex].number)
  }

  /** The outcome column of the rows, in row order. */
  function Outcomes(data: seq<seq<Cell>>, weightIndex: nat, outcomeIndex: nat): (r: seq<string>)
    requires RowsHave(data, weightIndex, outcomeIndex)
    ensures |r| == |data| && forall k :: 0 <= k < |data| ==> Text(r[k]) == data[k][outcomeIndex]
  {
    seq(|data|, k requires 0 <= k < |data| && RowsHave(data, weightIndex, outcomeIndex) =>
      data[k][outcomeIndex].text)
  }

  /**
   * The `WeightedRandomSelector` constructor: outcomes and weights are read
   * from the given columns of each row, row by row, and the table is built
   * from the weights.
   */
  method NewSelector(data: seq<seq<Cell>>, weightIndex: nat, outcomeIndex: nat) returns (sel: Selector)
    requires RowsHave(data, weightIndex, outcomeIndex)
    requires ValidWeights(Weights(data, weightIndex, outcomeIndex))
    ensures |sel.outcomes| == |data|
    ensures forall k :: 0 <= k < |data| ==> Text(sel.outcomes[k]) == data[k][outcomeIndex]
    ensures Represents(sel.aliasTable, Weights(data, weightIndex, outcomeIndex))
  {
    var weights := Weights(data, weightIndex, outcomeIndex);
    var outcomes := Outcomes(data, weightIndex, outcomeIndex);
    var table := BuildAliasTable(weights);
    sel := Selector(table, outcomes);
  }

  predicate WellFormed(table: seq<Entry>) {
    |table| > 0 && forall i :: 0 <= i < |table| ==> ValidEntry(table[i], i, |table|)
  }

  /** The chance, given that slot `j` was drawn, that the draw yields outcome `k`. */
  function SlotChance(e: Entry, j: int, k: int): real {
    (if j == k then e.prob else 0.0) + Passed(e, j, k)
  }

  /** The sum of `SlotChance` for outcome `k` over the slots below `m`. */
  function ChanceUpTo(table: seq<Entry>, k: int, m: nat): real
    requires m <= |table|
  {
    if m == 0 then 0.0 else ChanceUpTo(table, k, m - 1) + SlotChance(table[m - 1], m - 1, k)
  }

  /**
   * Summed over the slots, each picked with chance 1/n, the chance of outcome
   * `k` is exactly the mass the table gives `k`: its own probability plus
   * what it receives through aliases.
   */
  lemma {:induction false} ChanceIsMass(table: seq<Entry>, k: nat, m: nat)
    requires m <= |table|
    ensures ChanceUpTo(table, k, m) == (if k < m then table[k].prob else 0.0) + ReceivedUpTo(table, k, m)
  {
    if m > 0 {
      ChanceIsMass(table, k, m - 1);
    }
  }

  lemma {:induction false} ChanceAtLeastSlot(table: seq<Entry>, k: int, m: nat, j: nat)
    requires j < m <= |table| && WellFormed(table)
    ensures ChanceUpTo(table, k, m) >= SlotChance(table[j], j, k)
  {
    if m - 1 != j {
      ChanceAtLeastSlot(table, k, m - 1, j);
    }
    ChanceNonNegative(table, k, m - 1);
  }

  lemma {:induction false} ChanceNonNegative(table: seq<Entry>, k: int, m: nat)
    requires m <= |table| && WellFormed(table)
    ensures ChanceUpTo(table, k, m) >= 0.0
  {
    if m > 0 {
      ChanceNonNegative(table, k, m - 1);
    }
  }

  /**
   * The outcome index of `drawRandomOutcome`: slot `floor(u1 * n)`, kept when
   * the coin `u2` falls below its probability, otherwise its alias. The
   * outcome always has a positive chance given the slot.
   */
  function DrawIndex(table: seq<Entry>, u1: real, u2: real): (k: nat)
    requires WellFormed(table) && 0.0 <= u1 < 1.0 && 0.0 <= u2 < 1.0
    ensures k < |table|
    ensures var j := RandomIndex(|table|, u1);
            && (u2 < table[j].prob ==> k == j)
            && (u2 >= table[j].prob ==> k == table[j].alias)
            && SlotChance(table[j], j, k) > 0.0
  {
    var j := RandomIndex(|table|, u1);
    if u2 < table[j].prob then j else table[j].alias
  }

  /** `drawRandomOutcome`, with the two `Math.random()` values as parameters. */
  function DrawRandomOutcome(sel: Selector, u1: real, u2: real): (o: string)
    requires WellFormed(sel.aliasTable) && |sel.outcomes| == |sel.aliasTable|
    requires 0.0 <= u1 < 1.0 && 0.0 <= u2 < 1.0
    ensures o in sel.outcomes
    ensures o == sel.outcomes[DrawIndex(sel.aliasTable, u1, u2)]
  {
    sel.outcomes[DrawIndex(sel.aliasTable, u1, u2)]
  }

  lemma PositiveFraction(x: real, n: real, w: real, total: real)
    requires x > 0.0 && n > 0.0 && total > 0.0 && x / n == w / total
    ensures w > 0.0
  {
    assert w == (w / total) * total;
    assert x / n > 0.0;
  }

  /**
   * Whatever the two random numbers, a selector built from `weights` only
   * ever draws an outcome whose weight is positive.
   */
  lemma DrawnOutcomeHasWeight(table: seq<Entry>, weights: seq<real>, u1: real, u2: real)
    requires ValidWeights(weights) && Represents(table, weights)
    requires 0.0 <= u1 < 1.0 && 0.0 <= u2 < 1.0
    ensures weights[DrawIndex(table, u1, u2)] > 0.0
  {
    var k := DrawIndex(table, u1, u2);
    var j := RandomIndex(|table|, u1);
    ChanceAtLeastSlot(table, k, |table|, j);
    ChanceIsMass(table, k, |table|);
    PositiveFraction(table[k].prob + Received(table, k), |table| as real, weights[k], Sum(weights));
  }

  /**
   * The distribution of a draw: for each outcome `k`, the slot chances summed
   * over all slots and divided by `n` equal `weights[k] / sum`.
   */
  lemma DrawDistribution(table: seq<Entry>, weights: seq<real>, k: nat)
    requires ValidWeights(weights) && Represents(table, weights) && k < |table|
    ensures ChanceUpTo(table, k, |table|) / |table| as real == weights[k] / Sum(weights)
  {
    ChanceIsMass(table, k, |table|);
  }
}
