/** The block-split dynamic programme of the quality 10 and 11 encoder: a normalised,
    clamped forward pass over per-histogram costs, a switch-signal bitmap, and a
    backtrace that rewrites the block identifiers in place. Costs are exact reals. */
module FindBlocks {
  import opened Arithmetic

  /** Starting value of the running minimum; larger than any cost that is compared with it. */
  const NO_MIN_COST: real :=
    1000000000000000000000000000000000000000000000000000000000000000000000000000000000000000000000000000.0

  const PROLOGUE_LENGTH := 2000

  /** The data of one block-splitting problem: the symbols and the insertion-cost table. */
  datatype Problem = Problem(data: seq<nat>, insertCost: seq<real>, histograms: nat, switchBitcost: real)
  {
    ghost predicate Valid() {
      && 0 < histograms <= 256
      && 0.0 <= switchBitcost
      && forall t :: 0 <= t < |data| ==> data[t] * histograms + histograms <= |insertCost|
    }

    /** Cost of coding the symbol at position t with histogram k. */
    function InsertAt(t: nat, k: nat): real
      requires Valid() && t < |data| && k < histograms
    {
      insertCost[data[t] * histograms + k]
    }

    /** Price of changing histogram between positions t and t + 1: reduced in the prologue. */
    function SwitchAt(t: nat): real {
      if t < PROLOGUE_LENGTH then switchBitcost * (0.77 + 0.07 / 2000.0 * (t as real)) else switchBitcost
    }

    /** Some histogram codes the symbol at t, even after a switch, for less than the sentinel. */
    ghost predicate AffordableAt(t: nat) requires Valid() && t < |data| {
      exists k :: 0 <= k < histograms && InsertAt(t, k) + switchBitcost < NO_MIN_COST
    }

    ghost predicate BelowSentinel() requires Valid() {
      forall t :: 0 <= t < |data| ==> AffordableAt(t)
    }
  }

  /** The price of a switch begins at 0.77 of the full price, rises by the same amount at each of the first 2000
      positions, up to 0.84, and is the full price from there on. */
  lemma SwitchPrices(p: Problem, t: nat)
    ensures p.SwitchAt(0) == 0.77 * p.switchBitcost && (t >= 2000 ==> p.SwitchAt(t) == p.switchBitcost)
    ensures t < 1999 ==> 2000.0 * (p.SwitchAt(t + 1) - p.SwitchAt(t)) == (0.84 - 0.77) * p.switchBitcost
    ensures t < 2000 && p.switchBitcost >= 0.0 ==>
              0.77 * p.switchBitcost <= p.SwitchAt(t) <= 0.84 * p.switchBitcost
  {
    var s, x := p.switchBitcost, t as real;
    if t < 2000 {
      Linear(s, x);
      Linear(s, x + 1.0);
      if s >= 0.0 { Scaled(s, 0.77 + 0.07 / 2000.0 * x, 0.77, 0.84); }
    }
  }

  lemma Linear(s: real, x: real)
    ensures s * (0.77 + 0.07 / 2000.0 * x) == 0.77 * s + 0.000035 * (s * x)
    ensures s * (x + 1.0) == s * x + s
  {
  }

  lemma Scaled(s: real, y: real, lo: real, hi: real)
    requires s >= 0.0 && lo <= y <= hi
    ensures lo * s <= s * y <= hi * s
  {
  }

  // ---------- Specification: the cost of an assignment of histograms to positions ----------

  ghost predicate Assignment(p: Problem, ids: seq<nat>) {
    |ids| == |p.data| && forall t :: 0 <= t < |ids| ==> ids[t] < p.histograms
  }

  /** Switch penalty paid between positions t and t + 1. */
  function Penalty(p: Problem, ids: seq<nat>, t: nat): real
    requires t + 1 < |ids|
  {
    if ids[t] == ids[t + 1] then 0.0 else p.SwitchAt(t)
  }

  /** Total cost of the positions 0 .. t of an assignment. */
  function Total(p: Problem, ids: seq<nat>, t: nat): real
    requires p.Valid() && Assignment(p, ids) && t < |ids|
  {
    if t == 0 then p.InsertAt(0, ids[0])
    else Total(p, ids, t - 1) + Penalty(p, ids, t - 1) + p.InsertAt(t, ids[t])
  }

  function Cost(p: Problem, ids: seq<nat>): real
    requires p.Valid() && Assignment(p, ids) && |ids| > 0
  {
    Total(p, ids, |ids| - 1)
  }

  /** Number of maximal runs of equal identifiers. */
  function Runs(ids: seq<nat>): nat {
    if |ids| == 0 then 0
    else if |ids| == 1 then 1
    else Runs(ids[1..]) + if ids[0] == ids[1] then 0 else 1
  }

  // ---------- The Viterbi recurrence ----------

  /** Best total over assignments of 0 .. t that end in histogram k. */
  function Opt(p: Problem, t: nat, k: nat): real
    requires p.Valid() && t < |p.data| && k < p.histograms
    decreases t, 0
  {
    if t == 0 then p.InsertAt(0, k)
    else MinReal(Opt(p, t - 1, k), Best(p, t - 1, p.histograms) + p.SwitchAt(t - 1)) + p.InsertAt(t, k)
  }

  /** Minimum of Opt(p, t, k) over k < n. */
  function Best(p: Problem, t: nat, n: nat): real
    requires p.Valid() && t < |p.data| && 0 < n <= p.histograms
    decreases t, n
  {
    if n == 1 then Opt(p, t, 0) else MinReal(Best(p, t, n - 1), Opt(p, t, n - 1))
  }

  lemma {:induction false} BestIsMinimum(p: Problem, t: nat, n: nat, k: nat)
    requires p.Valid() && t < |p.data| && k < n <= p.histograms
    ensures Best(p, t, n) <= Opt(p, t, k)
  {
    if k < n - 1 {
      BestIsMinimum(p, t, n - 1, k);
    }
  }

  /** No assignment is cheaper than the recurrence says. */
  lemma {:induction false} OptIsLowerBound(p: Problem, ids: seq<nat>, t: nat)
    requires p.Valid() && Assignment(p, ids) && t < |ids|
    ensures Opt(p, t, ids[t]) <= Total(p, ids, t)
  {
    if t > 0 {
      OptIsLowerBound(p, ids, t - 1);
      BestIsMinimum(p, t - 1, p.histograms, ids[t - 1]);
    }
  }

  lemma SwitchNonNegative(p: Problem, t: nat)
    requires p.Valid()
    ensures 0.0 <= p.SwitchAt(t) <= p.switchBitcost
  {
    if t < PROLOGUE_LENGTH {
      var f := 0.77 + 0.07 / 2000.0 * (t as real);
      assert 0.0 <= f <= 1.0;
      assert p.switchBitcost * f <= p.switchBitcost * 1.0;
    }
  }

  // ---------- The switch-signal bitmap ----------

  newtype uint8 = x: int | 0 <= x < 256

  /** The byte 1 << (k & 7). */
  function Mask(k: nat): bv8 {
    match k % 8
    case 0 => 1
    case 1 => 2
    case 2 => 4
    case 3 => 8
    case 4 => 16
    case 5 => 32
    case 6 => 64
    case _ => 128
  }

  lemma SetBit(b: bv8, j: nat, k: nat)
    ensures (b | Mask(j)) & Mask(k) != 0 <==> (j % 8 == k % 8 || b & Mask(k) != 0)
  {
  }

  function BitmapLen(n: nat): nat { (n + 7) / 8 }

  /** Whether the signal of histogram k is set in the bitmap row that starts at off. */
  predicate Signalled(sig: seq<bv8>, off: nat, k: nat)
    requires off + k / 8 < |sig|
  {
    sig[off + k / 8] & Mask(k) != 0
  }

  // ---------- The forward pass ----------

  /** Adds one row of insertion costs and finds the first minimum. */
  method DPStep(cost: array<real>, insertCost: array<real>, off: nat) returns (minCost: real, best: nat)
    requires cost != insertCost && off + cost.Length <= insertCost.Length
    modifies cost
    ensures forall k :: 0 <= k < cost.Length ==> cost[k] == old(cost[k]) + insertCost[off + k]
    ensures minCost <= NO_MIN_COST
    ensures forall k :: 0 <= k < cost.Length ==> minCost <= cost[k]
    ensures minCost < NO_MIN_COST ==>
            best < cost.Length && cost[best] == minCost && forall k :: 0 <= k < best ==> minCost < cost[k]
    ensures minCost == NO_MIN_COST ==> best == 0
  {
    minCost, best := NO_MIN_COST, 0;
    var k := 0;
    while k < cost.Length
      invariant 0 <= k <= cost.Length
      invariant forall i :: 0 <= i < k ==> cost[i] == old(cost[i]) + insertCost[off + i]
      invariant forall i :: k <= i < cost.Length ==> cost[i] == old(cost[i])
      invariant minCost <= NO_MIN_COST
      invariant forall i :: 0 <= i < k ==> minCost <= cost[i]
      invariant minCost < NO_MIN_COST ==>
                best < k && cost[best] == minCost && forall i :: 0 <= i < best ==> minCost < cost[i]
      invariant minCost == NO_MIN_COST ==> best == 0
    {
      cost[k] := cost[k] + insertCost[off + k];
      if cost[k] < minCost {
        minCost := cost[k];
        best := k;
      }
      k := k + 1;
    }
  }

  function Clamped(c: real, minCost: real, switchCost: real): real {
    if c - minCost >= switchCost then switchCost else c - minCost
  }

  /** Sets the bit of histogram k in the row that starts at off; other bits keep their value. */
  method SetSignal(sig: array<bv8>, off: nat, k: nat)
    requires off + k / 8 < sig.Length
    modifies sig
    ensures forall i :: 0 <= i && off + i / 8 < sig.Length ==>
              (Signalled(sig[..], off, i) <==> (i == k || old(Signalled(sig[..], off, i))))
    ensures forall j :: 0 <= j < sig.Length && j != off + k / 8 ==> sig[j] == old(sig[j])
  {
    ghost var old0 := sig[off + k / 8];
    sig[off + k / 8] := sig[off + k / 8] | Mask(k);
    forall i | 0 <= i && off + i / 8 < sig.Length
      ensures Signalled(sig[..], off, i) <==> (i == k || old(Signalled(sig[..], off, i)))
    {
      SetBit(old0, k, i);
    }
  }

  /** Rebases the costs, clamps them at the switch cost and signals each clamped histogram. */
  method Clamp(cost: array<real>, sig: array<bv8>, off: nat, minCost: real, switchCost: real)
    requires off + BitmapLen(cost.Length) <= sig.Length
    requires cost as object != sig
    requires forall k :: 0 <= k < cost.Length ==> !Signalled(sig[..], off, k)
    modifies cost, sig
    ensures forall k :: 0 <= k < cost.Length ==> cost[k] == Clamped(old(cost[k]), minCost, switchCost)
    ensures forall k :: 0 <= k < cost.Length ==>
              (Signalled(sig[..], off, k) <==> old(cost[k]) - minCost >= switchCost)
    ensures forall j :: 0 <= j < sig.Length && !(off <= j < off + BitmapLen(cost.Length)) ==> sig[j] == old(sig[j])
  {
    var k := 0;
    while k < cost.Length
      invariant 0 <= k <= cost.Length
      invariant forall i :: 0 <= i < k ==> cost[i] == Clamped(old(cost[i]), minCost, switchCost)
      invariant forall i :: k <= i < cost.Length ==> cost[i] == old(cost[i])
      invariant forall i :: 0 <= i < cost.Length ==>
                (Signalled(sig[..], off, i) <==> i < k && old(cost[i]) - minCost >= switchCost)
      invariant forall j :: 0 <= j < sig.Length && !(off <= j < off + BitmapLen(cost.Length)) ==> sig[j] == old(sig[j])
    {
      cost[k] := cost[k] - minCost;
      if cost[k] >= switchCost {
        cost[k] := switchCost;
        SetSignal(sig, off, k);
      }
      k := k + 1;
    }
  }

  /** State of the forward pass after the positions 0 .. t - 1. */
  ghost predicate Swept(p: Problem, t: nat, cost: seq<real>)
    requires p.Valid() && t <= |p.data| && |cost| == p.histograms
  {
    forall k :: 0 <= k < p.histograms ==>
      cost[k] == if t == 0 then 0.0 else Clamped(Opt(p, t - 1, k), Best(p, t - 1, p.histograms), p.SwitchAt(t - 1))
  }

  /** Running base of the normalised costs before position t. */
  function Base(p: Problem, t: nat): real
    requires p.Valid() && t <= |p.data|
  {
    if t == 0 then 0.0 else Best(p, t - 1, p.histograms)
  }

  /** Adding the insertion costs of position t to a swept row gives Opt relative to the base. */
  lemma StepIsOpt(p: Problem, t: nat, before: seq<real>, after: seq<real>)
    requires p.Valid() && t < |p.data| && |before| == |after| == p.histograms
    requires Swept(p, t, before)
    requires forall k :: 0 <= k < p.histograms ==> after[k] == before[k] + p.InsertAt(t, k)
    ensures forall k :: 0 <= k < p.histograms ==> after[k] == Opt(p, t, k) - Base(p, t)
  {
  }

  lemma {:induction false} MinimumIsBest(p: Problem, t: nat, m: real, best: nat)
    requires p.Valid() && t < |p.data| && best < p.histograms
    requires m == Opt(p, t, best)
    requires forall k :: 0 <= k < p.histograms ==> m <= Opt(p, t, k)
    ensures Best(p, t, p.histograms) == m
  {
    BestIsMinimum(p, t, p.histograms, best);
    var n := BestAttained(p, t, p.histograms);
  }

  lemma {:induction false} BestAttained(p: Problem, t: nat, n: nat) returns (k: nat)
    requires p.Valid() && t < |p.data| && 0 < n <= p.histograms
    ensures k < n && Best(p, t, n) == Opt(p, t, k)
  {
    if n == 1 {
      k := 0;
    } else if Best(p, t, n - 1) <= Opt(p, t, n - 1) {
      k := BestAttained(p, t, n - 1);
    } else {
      k := n - 1;
    }
  }

  /** A swept row plus the insertion costs stays below the sentinel somewhere. */
  lemma SomeBelowSentinel(p: Problem, t: nat, before: seq<real>)
    requires p.Valid() && p.BelowSentinel() && t < |p.data| && |before| == p.histograms
    requires Swept(p, t, before)
    ensures exists k :: 0 <= k < p.histograms && before[k] + p.InsertAt(t, k) < NO_MIN_COST
  {
    assert p.AffordableAt(t);
    var k :| 0 <= k < p.histograms && p.InsertAt(t, k) + p.switchBitcost < NO_MIN_COST;
    if t > 0 { SwitchNonNegative(p, t - 1); }
    assert before[k] <= p.switchBitcost;
  }

  lemma RowsInOrder(t: nat, u: nat, width: nat)
    requires t < u
    ensures t * width + width <= u * width
  {
    assert (t + 1) * width <= u * width;
  }

  /** What the forward pass leaves behind for position t: the cheapest histogram, and a
      signal for exactly the histograms that are reached by a switch. */
  ghost predicate RowDone(p: Problem, t: nat, sig: seq<bv8>, best: nat)
    requires p.Valid() && t < |p.data|
  {
    && best < p.histograms
    && Opt(p, t, best) == Best(p, t, p.histograms)
    && t * BitmapLen(p.histograms) + BitmapLen(p.histograms) <= |sig|
    && RowSignals(p, t, sig, t * BitmapLen(p.histograms))
  }

  ghost predicate RowSignals(p: Problem, t: nat, sig: seq<bv8>, off: nat)
    requires p.Valid() && t < |p.data| && off + BitmapLen(p.histograms) <= |sig|
  {
    forall k :: 0 <= k < p.histograms ==>
      (Signalled(sig, off, k) <==> Opt(p, t, k) - Best(p, t, p.histograms) >= p.SwitchAt(t))
  }

  /** The insertion-cost buffer starts with the table of the problem. */
  ghost predicate Holds(buffer: seq<real>, p: Problem) {
    |p.insertCost| <= |buffer| && forall x :: 0 <= x < |p.insertCost| ==> buffer[x] == p.insertCost[x]
  }

  /** One position of the forward pass: a step and a clamp. */
  method Step(ghost p: Problem, ghost t: nat, cost: array<real>, insertCost: array<real>, insertIx: nat,
              sig: array<bv8>, off: nat, switchCost: real) returns (minCost: real, best: nat)
    requires p.Valid() && p.BelowSentinel() && t < |p.data|
    requires cost.Length == p.histograms && cost != insertCost && cost as object != sig && insertCost as object != sig
    requires Holds(insertCost[..], p) && insertIx == p.data[t] * p.histograms
    requires switchCost == p.SwitchAt(t)
    requires Swept(p, t, cost[..])
    requires off + BitmapLen(cost.Length) <= sig.Length
    requires forall k :: 0 <= k < cost.Length ==> !Signalled(sig[..], off, k)
    modifies cost, sig
    ensures minCost < NO_MIN_COST
    ensures best < p.histograms && Opt(p, t, best) == Best(p, t, p.histograms)
    ensures Swept(p, t + 1, cost[..])
    ensures RowSignals(p, t, sig[..], off)
    ensures forall j :: 0 <= j < sig.Length && !(off <= j < off + BitmapLen(cost.Length)) ==> sig[j] == old(sig[j])
  {
    ghost var before := cost[..];
    SomeBelowSentinel(p, t, before);
    minCost, best := DPStep(cost, insertCost, insertIx);
    StepIsOpt(p, t, before, cost[..]);
    assert minCost < NO_MIN_COST;
    MinimumIsBest(p, t, Opt(p, t, best), best);
    assert minCost == Best(p, t, p.histograms) - Base(p, t);
    Clamp(cost, sig, off, minCost, switchCost);
  }

  /** Rows below t are done and rows from t on are still clear. */
  ghost predicate Progress(p: Problem, t: nat, sig: seq<bv8>, ids: seq<uint8>)
    requires p.Valid() && t <= |p.data| <= |ids|
  {
    && (forall u :: 0 <= u < t ==> RowDone(p, u, sig, ids[u] as nat))
    && ClearFrom(p, t, sig)
  }

  ghost predicate ClearFrom(p: Problem, t: nat, sig: seq<bv8>) {
    && |p.data| * BitmapLen(p.histograms) <= |sig|
    && forall j :: t * BitmapLen(p.histograms) <= j < |p.data| * BitmapLen(p.histograms) ==> sig[j] == 0
  }

  lemma ProgressStep(p: Problem, t: nat, before: seq<bv8>, after: seq<bv8>, ids: seq<uint8>, ids': seq<uint8>)
    requires p.Valid() && t < |p.data| <= |ids| == |ids'| && |before| == |after|
    requires Progress(p, t, before, ids)
    requires forall u :: 0 <= u < t ==> ids'[u] == ids[u]
    requires var off, w := t * BitmapLen(p.histograms), BitmapLen(p.histograms);
             && off + w <= |after|
             && (forall j :: 0 <= j < |after| && !(off <= j < off + w) ==> after[j] == before[j])
             && RowSignals(p, t, after, off)
    requires ids'[t] as nat < p.histograms && Opt(p, t, ids'[t] as nat) == Best(p, t, p.histograms)
    ensures Progress(p, t + 1, after, ids')
  {
    forall u | 0 <= u < t + 1
      ensures RowDone(p, u, after, ids'[u] as nat)
    {
      if u < t { RowFramed(p, u, t, before, after, ids[u] as nat); }
    }
    RowAbove(t + 1, BitmapLen(p.histograms));
  }

  lemma ClearRow(p: Problem, t: nat, sig: seq<bv8>)
    requires p.Valid() && t < |p.data| && ClearFrom(p, t, sig)
    ensures var off := t * BitmapLen(p.histograms);
            off + BitmapLen(p.histograms) <= |sig| && forall k :: 0 <= k < p.histograms ==> !Signalled(sig, off, k)
  {
    RowsInOrder(t, |p.data|, BitmapLen(p.histograms));
    forall k | 0 <= k < p.histograms
      ensures !Signalled(sig, t * BitmapLen(p.histograms), k)
    {
      assert sig[t * BitmapLen(p.histograms) + k / 8] == 0;
    }
  }

  /** One iteration of the forward pass. */
  method Sweep(ghost p: Problem, byteIx: nat, symbol: nat, insertCost: array<real>, cost: array<real>,
               sig: array<bv8>, blockID: array<uint8>, blockSwitchBitcost: real)
    requires p.Valid() && p.BelowSentinel() && byteIx < |p.data| && p.data[byteIx] == symbol
    requires p.switchBitcost == blockSwitchBitcost && p.histograms == cost.Length
    requires cost != insertCost && cost as object != sig && insertCost as object != sig
    requires cost as object != blockID && insertCost as object != blockID && sig as object != blockID
    requires Holds(insertCost[..], p) && Swept(p, byteIx, cost[..])
    requires |p.data| <= blockID.Length && Progress(p, byteIx, sig[..], blockID[..])
    modifies cost, sig, blockID
    ensures Swept(p, byteIx + 1, cost[..])
    ensures Progress(p, byteIx + 1, sig[..], blockID[..])
  {
    ghost var before, ids := sig[..], blockID[..];
    var ix := byteIx * BitmapLen(cost.Length);
    ClearRow(p, byteIx, before);
    var switchCost := blockSwitchBitcost;
    if byteIx < PROLOGUE_LENGTH {
      switchCost := switchCost * (0.77 + 0.07 / 2000.0 * (byteIx as real));
    }
    var minCost, best := Step(p, byteIx, cost, insertCost, symbol * cost.Length, sig, ix, switchCost);
    ghost var after, row := sig[..], cost[..];
    if minCost < NO_MIN_COST {
      blockID[byteIx] := best as uint8;
    }
    assert sig[..] == after && cost[..] == row;
    ProgressStep(p, byteIx, before, after, ids, blockID[..]);
  }

  /** The whole forward pass. */
  method ForwardPass(ghost p: Problem, data: seq<nat>, insertCost: array<real>, cost: array<real>,
                     sig: array<bv8>, blockID: array<uint8>, blockSwitchBitcost: real)
    requires p.Valid() && p.BelowSentinel()
    requires p.data == data && p.switchBitcost == blockSwitchBitcost && p.histograms == cost.Length
    requires cost != insertCost && cost as object != sig && insertCost as object != sig
    requires cost as object != blockID && insertCost as object != blockID && sig as object != blockID
    requires Holds(insertCost[..], p) && Swept(p, 0, cost[..]) && ClearFrom(p, 0, sig[..])
    requires |data| <= blockID.Length
    modifies cost, sig, blockID
    ensures forall t :: 0 <= t < |data| ==> RowDone(p, t, sig[..], blockID[t] as nat)
  {
    for byteIx := 0 to |data|
      invariant Swept(p, byteIx, cost[..])
      invariant Holds(insertCost[..], p)
      invariant Progress(p, byteIx, sig[..], blockID[..])
    {
      ghost var table := insertCost[..];
      Sweep(p, byteIx, data[byteIx], insertCost, cost, sig, blockID, blockSwitchBitcost);
      assert insertCost[..] == table;
    }
  }

  lemma RowFramed(p: Problem, t: nat, u: nat, before: seq<bv8>, after: seq<bv8>, best: nat)
    requires p.Valid() && t < u && t < |p.data| && |before| == |after|
    requires RowDone(p, t, before, best)
    requires forall j :: 0 <= j < u * BitmapLen(p.histograms) && j < |after| ==> after[j] == before[j]
    ensures RowDone(p, t, after, best)
  {
    var off := t * BitmapLen(p.histograms);
    RowsInOrder(t, u, BitmapLen(p.histograms));
    assert forall k :: 0 <= k < p.histograms ==> (Signalled(after, off, k) <==> Signalled(before, off, k));
  }

  // ---------- The backtrace ----------

  /** Cost of the positions after t, where tail holds the identifiers from position t on. */
  function SuffixCost(p: Problem, t: nat, tail: seq<nat>): real
    requires p.Valid() && t + |tail| == |p.data| && forall i :: 0 <= i < |tail| ==> tail[i] < p.histograms
    decreases |tail|
  {
    if |tail| <= 1 then 0.0
    else
      (if tail[0] == tail[1] then 0.0 else p.SwitchAt(t)) + p.InsertAt(t + 1, tail[1]) + SuffixCost(p, t + 1, tail[1..])
  }

  lemma {:induction false} TotalPlusSuffix(p: Problem, ids: seq<nat>, t: nat)
    requires p.Valid() && Assignment(p, ids) && t < |ids|
    ensures Total(p, ids, t) + SuffixCost(p, t, ids[t..]) == Cost(p, ids)
    decreases |ids| - t
  {
    if t + 1 < |ids| {
      TotalPlusSuffix(p, ids, t + 1);
      assert ids[t..][1..] == ids[t + 1..];
    }
  }

  lemma SuffixFromStart(p: Problem, ids: seq<nat>)
    requires p.Valid() && Assignment(p, ids) && |ids| > 0
    ensures Opt(p, 0, ids[0]) + SuffixCost(p, 0, ids) == Cost(p, ids)
  {
    TotalPlusSuffix(p, ids, 0);
    assert ids[0..] == ids;
  }

  /** The identifier the backtrace selects for position t when position t + 1 has identifier c. */
  function Previous(signalled: bool, best: nat, c: nat): nat { if signalled then best else c }

  lemma BackStep(p: Problem, t: nat, sig: seq<bv8>, best: nat, c: nat)
    requires p.Valid() && t + 1 < |p.data| && c < p.histograms
    requires RowDone(p, t, sig, best)
    ensures var n := Previous(Signalled(sig, t * BitmapLen(p.histograms), c), best, c);
            n < p.histograms &&
            Opt(p, t + 1, c) == Opt(p, t, n) + (if n == c then 0.0 else p.SwitchAt(t)) + p.InsertAt(t + 1, c)
  {
    SwitchNonNegative(p, t);
    BestIsMinimum(p, t, p.histograms, c);
  }

  lemma RowAbove(t: nat, width: nat)
    requires t > 0
    ensures t * width == (t - 1) * width + width && 0 <= (t - 1) * width
  {
  }

  ghost function Ids(blockID: seq<uint8>): seq<nat> {
    seq(|blockID|, i requires 0 <= i < |blockID| => blockID[i] as nat)
  }

  /** Reads the signal of curID in the row at ix and selects the identifier of position t. */
  method SelectPrevious(ghost p: Problem, ghost t: nat, sig: array<bv8>, ix: nat, best: uint8, curID: uint8)
    returns (next: uint8)
    requires p.Valid() && t + 1 < |p.data| && curID as nat < p.histograms
    requires ix == t * BitmapLen(p.histograms) && RowDone(p, t, sig[..], best as nat)
    ensures next as nat < p.histograms
    ensures Opt(p, t + 1, curID as nat)
         == Opt(p, t, next as nat) + (if next == curID then 0.0 else p.SwitchAt(t)) + p.InsertAt(t + 1, curID as nat)
  {
    BackStep(p, t, sig[..], best as nat, curID as nat);
    assert curID as nat / 8 < BitmapLen(p.histograms);
    next := curID;
    if sig[ix + curID as nat / 8] & Mask(curID as nat) != 0 {
      next := best;
    }
  }

  lemma PushFront(p: Problem, t: nat, n: nat, tail: seq<nat>)
    requires p.Valid() && |tail| > 0 && t + 1 + |tail| == |p.data|
    requires n < p.histograms && forall i :: 0 <= i < |tail| ==> tail[i] < p.histograms
    ensures SuffixCost(p, t, [n] + tail)
         == (if n == tail[0] then 0.0 else p.SwitchAt(t)) + p.InsertAt(t + 1, tail[0]) + SuffixCost(p, t + 1, tail)
    ensures Runs([n] + tail) == Runs(tail) + if n == tail[0] then 0 else 1
  {
    assert ([n] + tail)[1..] == tail;
  }

  /** From position at on, the identifiers are those of tail. */
  ghost predicate Suffix(b: seq<uint8>, tail: seq<nat>, at: nat, n: nat) {
    at <= n <= |b| && |tail| == n - at && forall t :: at <= t < n ==> b[t] as nat == tail[t - at]
  }

  lemma SuffixLast(b: seq<uint8>, n: nat)
    requires 0 < n <= |b|
    ensures Suffix(b, [b[n - 1] as nat], n - 1, n)
  {
  }

  lemma SuffixPush(b: seq<uint8>, tail: seq<nat>, at: nat, n: nat, c: uint8)
    requires Suffix(b, tail, at + 1, n)
    ensures at < |b| && Suffix(b[at := c], [c as nat] + tail, at, n)
  {
  }

  lemma SuffixWhole(b: seq<uint8>, tail: seq<nat>, n: nat)
    requires Suffix(b, tail, 0, n)
    ensures n <= |b| && Ids(b[..n]) == tail
  {
  }

  lemma RowBest(p: Problem, t: nat, sig: seq<bv8>, best: nat)
    requires p.Valid() && t < |p.data| && RowDone(p, t, sig, best)
    ensures best < p.histograms && Opt(p, t, best) == Best(p, t, p.histograms)
  {
  }

  /** The walk starts with the best histogram of the last position. */
  lemma LastPosition(p: Problem)
    requires p.Valid() && |p.data| > 0
    ensures forall c: nat :: c < p.histograms ==> SuffixCost(p, |p.data| - 1, [c]) == 0.0
    ensures forall c: nat :: Runs([c]) == 1
  {
  }

  /** Walks the bitmap from the last position to the first, rewriting the identifiers. */
  method Backtrace(ghost p: Problem, length: nat, bitmapLen: nat, sig: array<bv8>, blockID: array<uint8>)
    returns (numBlocks: nat)
    requires p.Valid() && 0 < length == |p.data| <= blockID.Length && bitmapLen == BitmapLen(p.histograms)
    requires sig as object != blockID
    requires forall t :: 0 <= t < length ==> RowDone(p, t, sig[..], blockID[t] as nat)
    modifies blockID
    ensures Assignment(p, Ids(blockID[..length]))
    ensures Cost(p, Ids(blockID[..length])) == Best(p, length - 1, p.histograms)
    ensures numBlocks == Runs(Ids(blockID[..length]))
  {
    LastPosition(p);
    hide Opt, Best, SuffixCost, Runs, RowDone, Cost, Suffix;
    numBlocks := 1;
    var byteIx := length - 1;
    var ix := byteIx * bitmapLen;
    var curID := blockID[byteIx];
    ghost var tail: seq<nat> := [curID as nat];
    SuffixLast(blockID[..], length);
    RowBest(p, byteIx, sig[..], curID as nat);
    ghost var bests := blockID[..];
    while byteIx > 0
      invariant 0 <= byteIx < length && ix == byteIx * bitmapLen
      invariant forall t :: 0 <= t < byteIx ==> blockID[t] == bests[t]
      invariant |tail| == length - byteIx && tail[0] == curID as nat && Suffix(blockID[..], tail, byteIx, length)
      invariant forall i :: 0 <= i < |tail| ==> tail[i] < p.histograms
      invariant Opt(p, byteIx, curID as nat) + SuffixCost(p, byteIx, tail) == Best(p, length - 1, p.histograms)
      invariant numBlocks == Runs(tail)
    {
      RowAbove(byteIx, bitmapLen);
      byteIx := byteIx - 1;
      ix := ix - bitmapLen;
      assert RowDone(p, byteIx, sig[..], bests[byteIx] as nat);
      var next := SelectPrevious(p, byteIx, sig, ix, blockID[byteIx], curID);
      PushFront(p, byteIx, next as nat, tail);
      SuffixPush(blockID[..], tail, byteIx, length, next);
      tail := [next as nat] + tail;
      if next != curID {
        curID := next;
        numBlocks := numBlocks + 1;
      }
      blockID[byteIx] := curID;
    }
    SuffixWhole(blockID[..], tail, length);
    SuffixFromStart(p, tail);
  }

  // ---------- The insertion-cost table ----------

  /** The flat histograms of one call, and the base-two logarithm that prices them. */
  datatype Histograms = Histograms(counts: seq<nat>, num: nat, alphabet: nat, log2: nat -> real)
  {
    ghost predicate Valid() { num * alphabet <= |counts| }

    /** Sum of the first n counts of histogram j. */
    function Sum(j: nat, n: nat): nat
      requires Valid() && j < num && n <= alphabet
    {
      if n == 0 then 0 else RowsInOrder(j, num, alphabet); Sum(j, n - 1) + counts[j * alphabet + n - 1]
    }

    function SymbolBitCost(count: nat): real { if count == 0 then -2.0 else log2(count) }

    /** Bits to code symbol i with histogram j. */
    function Entry(i: nat, j: nat): real
      requires Valid() && i < alphabet && j < num
    {
      RowsInOrder(j, num, alphabet);
      log2(Sum(j, alphabet)) - SymbolBitCost(counts[j * alphabet + i])
    }

    ghost predicate RowFilled(table: seq<real>, i: nat, off: nat)
      requires Valid() && i < alphabet && off + num <= |table|
    {
      forall j :: 0 <= j < num ==> table[off + j] == Entry(i, j)
    }

    /** Some histogram codes symbol i, even after a switch, for less than the sentinel. */
    ghost predicate Affordable(i: nat, blockSwitchBitcost: real)
      requires Valid() && i < alphabet
    {
      exists k :: 0 <= k < num && Entry(i, k) + blockSwitchBitcost < NO_MIN_COST
    }

    /** Row i of the flat table is filled. */
    ghost predicate RowOf(table: seq<real>, i: nat)
      requires Valid() && i < alphabet
    {
      i * num + num <= |table| && RowFilled(table, i, i * num)
    }

    /** The specified table, row by row. */
    ghost function Table(rows: nat): (t: seq<real>)
      requires Valid() && rows <= alphabet
      ensures |t| == rows * num
    {
      if rows == 0 then []
        else RowAbove(rows, num); Table(rows - 1) + seq(num, j requires 0 <= j < num => Entry(rows - 1, j))
    }
  }

  /** A symbol costs the logarithm of the total less that of its count, and two bits more than the logarithm of the
      total if it does not occur. */
  lemma EntryPrices(h: Histograms, i: nat, j: nat)
    requires h.Valid() && i < h.alphabet && j < h.num
    ensures j * h.alphabet + i < |h.counts|
    ensures h.counts[j * h.alphabet + i] == 0 ==> h.Entry(i, j) == h.log2(h.Sum(j, h.alphabet)) + 2.0
    ensures var c := h.counts[j * h.alphabet + i];
            c > 0 ==> h.Entry(i, j) + h.log2(c) == h.log2(h.Sum(j, h.alphabet))
  {
    RowsInOrder(j, h.num, h.alphabet);
  }

  lemma {:induction false} TableRow(h: Histograms, rows: nat, i: nat)
    requires h.Valid() && i < rows <= h.alphabet
    ensures i * h.num + h.num <= rows * h.num
    ensures h.RowFilled(h.Table(rows), i, i * h.num)
  {
    RowsInOrder(i, rows, h.num);
    RowAbove(rows, h.num);
    if i < rows - 1 {
      TableRow(h, rows - 1, i);
      var off := i * h.num;
      RowsInOrder(i, rows - 1, h.num);
      forall j | 0 <= j < h.num
        ensures h.Table(rows)[off + j] == h.Entry(i, j)
      {
        assert h.Table(rows - 1)[off + j] == h.Entry(i, j);
      }
    }
  }

  /** A table whose rows are all filled is the specified table on the rows it has. */
  lemma {:induction false} FilledIsTable(h: Histograms, rows: nat, table: seq<real>)
    requires h.Valid() && rows <= h.alphabet && rows * h.num <= |table|
    requires forall i :: 0 <= i < rows ==> h.RowOf(table, i)
    ensures table[..rows * h.num] == h.Table(rows)
  {
    if rows > 0 {
      RowAbove(rows, h.num);
      FilledIsTable(h, rows - 1, table);
      assert h.RowOf(table, rows - 1);
    }
  }

  method FillBase(h: Histograms, insertCost: array<real>)
    requires h.Valid() && h.num <= insertCost.Length
    modifies insertCost
    ensures forall j :: 0 <= j < h.num ==> insertCost[j] == h.log2(h.Sum(j, h.alphabet))
  {
    var j := 0;
    while j < h.num
      invariant 0 <= j <= h.num
      invariant forall k :: 0 <= k < j ==> insertCost[k] == h.log2(h.Sum(k, h.alphabet))
    {
      RowsInOrder(j, h.num, h.alphabet);
      var total := 0;
      var i := 0;
      while i < h.alphabet
        invariant 0 <= i <= h.alphabet && total == h.Sum(j, i)
      {
        total := total + h.counts[j * h.alphabet + i];
        i := i + 1;
      }
      insertCost[j] := h.log2(total);
      j := j + 1;
    }
  }

  /** Fills row i from the base row, which for i == 0 is the row being written. */
  method FillRow(h: Histograms, insertCost: array<real>, i: nat, off: nat)
    requires h.Valid() && i < h.alphabet && off + h.num <= insertCost.Length && off == i * h.num
    requires forall j :: 0 <= j < h.num ==> insertCost[j] == h.log2(h.Sum(j, h.alphabet))
    modifies insertCost
    ensures h.RowFilled(insertCost[..], i, off)
    ensures forall x :: 0 <= x < insertCost.Length && !(off <= x < off + h.num) ==> insertCost[x] == old(insertCost[x])
  {
    assert i > 0 ==> off >= h.num by { if i > 0 { RowsInOrder(0, i, h.num); } }
    var j := 0;
    while j < h.num
      invariant 0 <= j <= h.num
      invariant forall k :: 0 <= k < j ==> insertCost[off + k] == h.Entry(i, k)
      invariant forall x :: 0 <= x < insertCost.Length && !(off <= x < off + j) ==> insertCost[x] == old(insertCost[x])
    {
      RowsInOrder(j, h.num, h.alphabet);
      insertCost[off + j] := insertCost[j] - h.SymbolBitCost(h.counts[j * h.alphabet + i]);
      j := j + 1;
    }
  }

  lemma FilledRowFramed(h: Histograms, r: nat, i: nat, before: seq<real>, after: seq<real>)
    requires h.Valid() && i < r < h.alphabet && |before| == |after|
    requires h.RowOf(before, r)
    requires forall x :: i * h.num + h.num <= x < |after| ==> after[x] == before[x]
    ensures h.RowOf(after, r)
  {
    RowsInOrder(i, r, h.num);
    var off := r * h.num;
    assert forall j :: 0 <= j < h.num ==> after[off + j] == h.Entry(r, j);
  }

  /** Fills the table from the last row to the first, so that the base row is overwritten last. */
  method FillInsertCost(h: Histograms, insertCost: array<real>)
    requires h.Valid() && 0 < h.alphabet && h.alphabet * h.num <= insertCost.Length
    modifies insertCost
    ensures insertCost[..h.alphabet * h.num] == h.Table(h.alphabet)
  {
    RowsInOrder(0, h.alphabet, h.num);
    FillBase(h, insertCost);
    var i := h.alphabet - 1;
    while i >= 0
      invariant -1 <= i < h.alphabet
      invariant i >= 0 ==> forall j :: 0 <= j < h.num ==> insertCost[j] == h.log2(h.Sum(j, h.alphabet))
      invariant forall r :: i < r < h.alphabet ==> h.RowOf(insertCost[..], r)
    {
      RowsInOrder(i, h.alphabet, h.num);
      ghost var before := insertCost[..];
      FillRow(h, insertCost, i, i * h.num);
      ghost var after := insertCost[..];
      assert h.RowOf(after, i);
      forall r | i < r < h.alphabet
        ensures h.RowOf(after, r)
      {
        FilledRowFramed(h, r, i, before, after);
      }
      if i > 0 { RowsInOrder(0, i, h.num); }
      i := i - 1;
    }
    FilledIsTable(h, h.alphabet, insertCost[..]);
  }

  // ---------- The whole call ----------

  /** The problem that one call solves. */
  ghost function ProblemOf(h: Histograms, data: seq<nat>, blockSwitchBitcost: real): Problem
    requires h.Valid()
  {
    Problem(data, h.Table(h.alphabet), h.num, blockSwitchBitcost)
  }

  lemma ProblemIsValid(h: Histograms, data: seq<nat>, blockSwitchBitcost: real)
    requires h.Valid() && 0 < h.num <= 256 && 0.0 <= blockSwitchBitcost
    requires forall t :: 0 <= t < |data| ==> data[t] < h.alphabet
    ensures ProblemOf(h, data, blockSwitchBitcost).Valid()
  {
    forall t | 0 <= t < |data|
      ensures data[t] * h.num + h.num <= h.alphabet * h.num
    {
      RowsInOrder(data[t], h.alphabet, h.num);
    }
  }

  /** The problem prices position t under histogram k at log2(total of k) - symbolBitCost(count). */
  lemma InsertAtIsEntry(h: Histograms, data: seq<nat>, blockSwitchBitcost: real, t: nat, k: nat)
    requires h.Valid() && 0 < h.num <= 256 && 0.0 <= blockSwitchBitcost
    requires forall t :: 0 <= t < |data| ==> data[t] < h.alphabet
    requires t < |data| && k < h.num
    ensures ProblemOf(h, data, blockSwitchBitcost).Valid()
    ensures ProblemOf(h, data, blockSwitchBitcost).InsertAt(t, k) == h.Entry(data[t], k)
  {
    ProblemIsValid(h, data, blockSwitchBitcost);
    TableRow(h, h.alphabet, data[t]);
  }

  lemma ProblemBelowSentinel(h: Histograms, data: seq<nat>, blockSwitchBitcost: real)
    requires h.Valid() && 0 < h.num <= 256 && 0.0 <= blockSwitchBitcost
    requires forall t :: 0 <= t < |data| ==> data[t] < h.alphabet
    requires forall t :: 0 <= t < |data| ==> h.Affordable(data[t], blockSwitchBitcost)
    ensures ProblemOf(h, data, blockSwitchBitcost).Valid()
    ensures ProblemOf(h, data, blockSwitchBitcost).BelowSentinel()
  {
    var p := ProblemOf(h, data, blockSwitchBitcost);
    ProblemIsValid(h, data, blockSwitchBitcost);
    forall t | 0 <= t < |data|
      ensures p.AffordableAt(t)
    {
      assert h.Affordable(data[t], blockSwitchBitcost);
      var k :| 0 <= k < h.num && h.Entry(data[t], k) + blockSwitchBitcost < NO_MIN_COST;
      InsertAtIsEntry(h, data, blockSwitchBitcost, t, k);
    }
  }

  lemma {:induction false} OneHistogram(p: Problem, ids: seq<nat>)
    requires p.histograms == 1 && Assignment(p, ids)
    ensures ids == seq(|p.data|, _ => 0)
  {
  }

  lemma {:induction false} RunsOfConstant(n: nat)
    requires n > 0
    ensures Runs(seq(n, _ => 0)) == 1
  {
    if n > 1 {
      RunsOfConstant(n - 1);
      assert seq(n, _ => 0)[1..] == seq(n - 1, _ => 0);
    }
  }

  method Solve(ghost p: Problem, data: seq<nat>, h: Histograms, insertCost: array<real>, cost: array<real>,
               sig: array<bv8>,
               blockID: array<uint8>, blockSwitchBitcost: real) returns (numBlocks: nat)
    requires h.Valid() && p == ProblemOf(h, data, blockSwitchBitcost) && p.Valid() && p.BelowSentinel()
    requires 0 < |data| <= blockID.Length && 0 < h.alphabet
    requires h.alphabet * h.num <= insertCost.Length && cost.Length == h.num && |data| * BitmapLen(h.num) <= sig.Length
    requires cost != insertCost && cost as object != sig && insertCost as object != sig
    requires cost as object != blockID && insertCost as object != blockID && sig as object != blockID
    modifies insertCost, cost, sig, blockID
    ensures Assignment(p, Ids(blockID[..|data|]))
    ensures Cost(p, Ids(blockID[..|data|])) == Best(p, |data| - 1, p.histograms)
    ensures numBlocks == Runs(Ids(blockID[..|data|]))
  {
    var bitmapLen := BitmapLen(h.num);
    FillInsertCost(h, insertCost);
    ghost var table := insertCost[..];
    assert Holds(table, p) by { assert table[..h.alphabet * h.num] == p.insertCost; }
    forall k | 0 <= k < cost.Length { cost[k] := 0.0; }
    forall j | 0 <= j < |data| * bitmapLen { sig[j] := 0; }
    assert insertCost[..] == table && ClearFrom(p, 0, sig[..]);
    ForwardPass(p, data, insertCost, cost, sig, blockID, blockSwitchBitcost);
    numBlocks := Backtrace(p, |data|, bitmapLen, sig, blockID);
  }

  /** No assignment of histograms to positions is cheaper than the one left in blockID, and
      the result counts its maximal runs. */
  method FindBlocks(data: seq<nat>, h: Histograms, insertCost: array<real>, cost: array<real>, sig: array<bv8>,
                    blockID: array<uint8>, blockSwitchBitcost: real) returns (numBlocks: nat)
    requires h.Valid() && 0 < h.num <= 256 && 0.0 <= blockSwitchBitcost && 0 < h.alphabet
    requires 0 < |data| <= blockID.Length && forall t :: 0 <= t < |data| ==> data[t] < h.alphabet
    requires forall t :: 0 <= t < |data| ==> h.Affordable(data[t], blockSwitchBitcost)
    requires h.alphabet * h.num <= insertCost.Length && cost.Length == h.num && |data| * BitmapLen(h.num) <= sig.Length
    requires cost != insertCost && cost as object != sig && insertCost as object != sig
    requires cost as object != blockID && insertCost as object != blockID && sig as object != blockID
    modifies insertCost, cost, sig, blockID
    ensures var p := ProblemOf(h, data, blockSwitchBitcost);
            var ids := Ids(blockID[..|data|]);
            && p.Valid() && Assignment(p, ids)
            && (forall other :: Assignment(p, other) ==> Cost(p, ids) <= Cost(p, other))
            && numBlocks == Runs(ids)
  {
    ghost var p := ProblemOf(h, data, blockSwitchBitcost);
    ProblemBelowSentinel(h, data, blockSwitchBitcost);
    if h.num <= 1 {
      forall i | 0 <= i < |data| { blockID[i] := 0; }
      ghost var ids := Ids(blockID[..|data|]);
      assert ids == seq(|data|, _ => 0);
      RunsOfConstant(|data|);
      forall other | Assignment(p, other) ensures Cost(p, ids) <= Cost(p, other) {
        OneHistogram(p, other);
      }
      return 1;
    }
    numBlocks := Solve(p, data, h, insertCost, cost, sig, blockID, blockSwitchBitcost);
    ghost var ids := Ids(blockID[..|data|]);
    forall other | Assignment(p, other) ensures Cost(p, ids) <= Cost(p, other) {
      OptIsLowerBound(p, other, |data| - 1);
      BestIsMinimum(p, |data| - 1, p.histograms, other[|data| - 1]);
    }
  }
}
