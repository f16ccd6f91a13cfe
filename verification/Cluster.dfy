/** Agglomerative clustering of histograms: pairs of clusters are merged, best first, while the queue of
    candidate pairs keeps only its front in order. */
module Cluster {
  import opened Arithmetic
  import opened Histograms

  /** 1e99. */
  const INFINITE_COST: real :=
    1000000000000000000000000000000000000000000000000000000000000000000000000000000000000000000000000000.0

  // ---------- The inputs mapped to a cluster ----------

  ghost predicate Inputs(ins: seq<Hist>, alphabet: nat) { forall i :: 0 <= i < |ins| ==> |ins[i]| == alphabet }

  /** Sum of the first k inputs that are mapped to c. */
  ghost function Sum(ins: seq<Hist>, alphabet: nat, symbols: seq<nat>, c: nat, k: nat): (h: Hist)
    requires Inputs(ins, alphabet) && k <= |ins| <= |symbols|
    ensures |h| == alphabet
  {
    if k == 0 then Zeros(alphabet)
    else
      var h := Sum(ins, alphabet, symbols, c, k - 1);
      if symbols[k - 1] == c then Add(h, ins[k - 1]) else h
  }

  /** The counts of symbol x in the inputs that are mapped to c, added up. */
  ghost function CountOf(ins: seq<Hist>, symbols: seq<nat>, c: nat, x: nat, k: nat): nat
    requires k <= |ins| <= |symbols| && forall i :: 0 <= i < |ins| ==> x < |ins[i]|
  {
    if k == 0 then 0 else CountOf(ins, symbols, c, x, k - 1) + if symbols[k - 1] == c then ins[k - 1][x] else 0
  }

  lemma {:induction false} SumCounts(ins: seq<Hist>, alphabet: nat, symbols: seq<nat>, c: nat, x: nat, k: nat)
    requires Inputs(ins, alphabet) && k <= |ins| <= |symbols| && x < alphabet
    ensures Sum(ins, alphabet, symbols, c, k)[x] == CountOf(ins, symbols, c, x, k)
  {
    if k > 0 { SumCounts(ins, alphabet, symbols, c, x, k - 1); }
  }

  /** How many of the first k inputs are mapped to c. */
  ghost function Members(symbols: seq<nat>, c: nat, k: nat): nat
    requires k <= |symbols|
  {
    if k == 0 then 0 else Members(symbols, c, k - 1) + if symbols[k - 1] == c then 1 else 0
  }

  /** symbols with b redirected to a. */
  ghost predicate Redirected(t: seq<nat>, s: seq<nat>, a: nat, b: nat) {
    |t| == |s| && forall i :: 0 <= i < |s| ==> t[i] == if s[i] == b then a else s[i]
  }

  /** Merging two clusters adds their histograms and their sizes. */
  lemma {:induction false} MergeSums(ins: seq<Hist>, alphabet: nat, s: seq<nat>, t: seq<nat>, a: nat, b: nat, k: nat)
    requires Inputs(ins, alphabet) && k <= |ins| <= |s| && a != b && Redirected(t, s, a, b)
    ensures Sum(ins, alphabet, t, a, k) == Add(Sum(ins, alphabet, s, a, k), Sum(ins, alphabet, s, b, k))
    ensures Members(t, a, k) == Members(s, a, k) + Members(s, b, k)
  {
    if k == 0 {
      AddZero(Zeros(alphabet));
    } else {
      MergeSums(ins, alphabet, s, t, a, b, k - 1);
      var f, g, h := Sum(ins, alphabet, s, a, k - 1), Sum(ins, alphabet, s, b, k - 1), ins[k - 1];
      if s[k - 1] == a {
        AddAssociates(f, g, h);
        AddSwaps(g, h);
        AddAssociates(f, h, g);
      } else if s[k - 1] == b {
        AddAssociates(f, g, h);
      }
    }
  }

  /** Merging two clusters leaves the others alone. */
  lemma {:induction false} MergeKeeps(ins: seq<Hist>, alphabet: nat, s: seq<nat>, t: seq<nat>, a: nat, b: nat, c: nat,
                                      k: nat)
    requires Inputs(ins, alphabet) && k <= |ins| <= |s| && c != a && c != b && Redirected(t, s, a, b)
    ensures Sum(ins, alphabet, t, c, k) == Sum(ins, alphabet, s, c, k) && Members(t, c, k) == Members(s, c, k)
  {
    if k > 0 { MergeKeeps(ins, alphabet, s, t, a, b, c, k - 1); }
  }

  // ---------- Pairs of clusters ----------

  datatype Pair = Pair(idx1: nat, idx2: nat, costCombo: real, costDiff: real)
  {
    function Names(): (nat, nat) { (idx1, idx2) }
  }

  /** The queued pairs in any order. */
  ghost function Bag(pairs: seq<Pair>, n: nat): multiset<Pair>
    requires n <= |pairs|
  {
    multiset(pairs[..n])
  }

  /** No pair is queued twice. */
  ghost predicate Once(pairs: seq<Pair>, n: nat)
    requires n <= |pairs|
  {
    forall q :: Bag(pairs, n)[q] <= 1
  }

  /** Two clusters in the order in which a pair names them. */
  function Sorted(a: nat, b: nat): (nat, nat) { if a < b then (a, b) else (b, a) }

  /** p is a worse candidate than q. */
  predicate Less(p: Pair, q: Pair)
    requires p.idx1 <= p.idx2 && q.idx1 <= q.idx2
  {
    if p.costDiff != q.costDiff then p.costDiff > q.costDiff else p.idx2 - p.idx1 > q.idx2 - q.idx1
  }

  /** The front of the queue is its best pair. */
  ghost predicate Best(pairs: seq<Pair>, n: nat) {
    && n <= |pairs| && (forall k :: 0 <= k < n ==> pairs[k].idx1 < pairs[k].idx2)
    && (forall k :: 0 <= k < n ==> !Less(pairs[0], pairs[k]))
  }

  lemma LessCost(pairs: seq<Pair>, q: Pair)
    ensures pairs != [] && pairs[0].idx1 <= pairs[0].idx2 && q.idx1 <= q.idx2 ==>
              if Less(pairs[0], q) then q.costDiff <= pairs[0].costDiff else pairs[0].costDiff <= q.costDiff
  {
  }

  /** Appending a pair that is not better, or putting a better one in front. */
  lemma BestGrows(pairs: seq<Pair>, n: nat, p: Pair)
    requires Best(pairs, n) && p.idx1 < p.idx2 && n < |pairs|
    ensures n > 0 && Less(pairs[0], p) ==> Best(pairs[n := pairs[0]][0 := p], n + 1)
    ensures n == 0 || !Less(pairs[0], p) ==> Best(pairs[n := p], n + 1)
  {
  }

  lemma BestReplaced(pairs: seq<Pair>, n: nat, p: Pair)
    requires Best(pairs, n) && p.idx1 < p.idx2 && n > 0 && Less(pairs[0], p)
    ensures Best(pairs[0 := p], n)
  {
  }

  // ---------- Clusters ----------

  /** What is kept for a cluster. */
  datatype Slot = Slot(hist: Hist, bitCost: real, total: nat, size: nat)

  /** The clusters in use and what is kept for them. */
  datatype Stage = Stage(list: seq<nat>, slots: seq<Slot>)

  /** The merges that were made, and the stages between them. */
  /** The clusters that the batches end in. */
  ghost function Results(logs: seq<Log>): seq<nat> {
    if logs == [] then [] else
      var l := logs[|logs| - 1];
      Results(logs[..|logs| - 1]) + if l.stages == [] then [] else l.stages[|l.stages| - 1].list
  }

  datatype Log = Log(stages: seq<Stage>, merged: seq<(nat, nat)>)
  {
    ghost predicate EndsIn(s: Stage) { stages != [] && stages[|stages| - 1] == s }
  }

  /** The inputs, and the cost functions, of which only bounds matter. */
  datatype Problem = Problem(ins: seq<Hist>, alphabet: nat, cost: Hist -> real, gain: (nat, nat) -> real)
  {
    ghost predicate Valid() {
      && Inputs(ins, alphabet) && (forall h :: 0.0 <= cost(h) < INFINITE_COST) && (forall a, b :: gain(a, b) <= 0.0)
    }

    ghost function SumOf(symbols: seq<nat>, c: nat): (h: Hist)
      requires Valid() && |symbols| == |ins|
      ensures |h| == alphabet
    {
      Sum(ins, alphabet, symbols, c, |ins|)
    }

    /** The slot of cluster c holds the sum of its inputs, with its total and its cost. */
    ghost predicate Summed(slot: Slot, symbols: seq<nat>, c: nat)
      requires Valid() && |symbols| == |ins|
    {
      slot.hist == SumOf(symbols, c) && slot.bitCost == cost(slot.hist) && slot.total == Total(slot.hist)
    }

    /** And the number of its inputs. */
    ghost predicate Exact(slot: Slot, symbols: seq<nat>, c: nat)
      requires Valid() && |symbols| == |ins|
    {
      Summed(slot, symbols, c) && slot.size == Members(symbols, c, |ins|)
    }

    /** The sum over the first k inputs. */
    ghost predicate Partial(slot: Slot, symbols: seq<nat>, c: nat, k: nat)
      requires Valid() && k <= |symbols| == |ins|
    {
      slot.hist == Sum(ins, alphabet, symbols, c, k) && slot.total == Total(slot.hist)
    }

    /** The listed clusters have histograms of the right size. */
    ghost predicate Sized(slots: seq<Slot>, list: seq<nat>) {
      forall c :: c in list ==> c < |slots| && |slots[c].hist| == alphabet
    }

    /** How much input i adds to the cost of a cluster. An input without counts adds nothing. */
    ghost function MoveCost(i: nat, slot: Slot): real
      requires i < |ins| && |ins[i]| == |slot.hist|
    {
      if ins[i] == Zeros(|ins[i]|) then 0.0 else cost(Add(ins[i], slot.hist)) - slot.bitCost
    }

    /** No listed cluster is cheaper for input i than best. A cluster other than the preferred one is taken only if it
        is cheaper than that, and then it is the first of its cost. */
    ghost predicate IsCheapest(slots: seq<Slot>, list: seq<nat>, i: nat, preferred: nat, best: nat) {
      && Valid() && i < |ins| && Sized(slots, list) && best in list && preferred in list
      && (forall c :: c in list ==> MoveCost(i, slots[best]) <= MoveCost(i, slots[c]))
      && (best == preferred || MoveCost(i, slots[best]) < MoveCost(i, slots[preferred]))
      && (best == preferred || exists j :: FirstAt(slots, list, i, j, best))
    }

    /** Cluster best stands at j in the list, and those before it are dearer for input i. */
    ghost predicate FirstAt(slots: seq<Slot>, list: seq<nat>, i: nat, j: nat, best: nat) {
      && i < |ins| && Inputs(ins, alphabet) && Sized(slots, list) && j < |list| && list[j] == best && best in list
      && forall k :: 0 <= k < j ==> list[k] in list && MoveCost(i, slots[list[k]]) > MoveCost(i, slots[best])
    }

    /** The cost of moving input i into the cluster of a slot. */
    function Distance(i: nat, slot: Slot): real
      requires i < |ins| && |ins[i]| == |slot.hist|
    {
      if Total(ins[i]) == 0 then 0.0 else cost(Add(ins[i], slot.hist)) - slot.bitCost
    }

    /** Every cluster in use is exact. */
    ghost predicate AllExact(slots: seq<Slot>, symbols: seq<nat>) {
      && Valid() && |slots| == |symbols| == |ins|
      && forall i :: 0 <= i < |symbols| ==> symbols[i] < |slots| && Exact(slots[symbols[i]], symbols, symbols[i])
    }

    /** The pair names two clusters of the list, and its costs are current. */
    ghost predicate Current(p: Pair, list: seq<nat>, slots: seq<Slot>) {
      && p.idx1 < p.idx2 < |slots| && p.idx1 in list && p.idx2 in list
      && |slots[p.idx1].hist| == |slots[p.idx2].hist|
      && p.costCombo == cost(Add(slots[p.idx1].hist, slots[p.idx2].hist))
      && p.costDiff ==
         0.5 * gain(slots[p.idx1].size, slots[p.idx2].size) - slots[p.idx1].bitCost - slots[p.idx2].bitCost
           + p.costCombo
    }

    /** The change of cost by merging two clusters. */
    ghost function MergeCost(a: Slot, b: Slot): real
      requires |a.hist| == |b.hist|
    {
      0.5 * gain(a.size, b.size) - a.bitCost - b.bitCost + cost(Add(a.hist, b.hist))
    }

    /** The front of a queue is no worse than merging clusters i and j. */
    ghost predicate NoWorse(pairs: seq<Pair>, slots: seq<Slot>, i: nat, j: nat) {
      && pairs != [] && i < |slots| && j < |slots| && |slots[i].hist| == |slots[j].hist|
      && pairs[0].costDiff <= if i < j then MergeCost(slots[i], slots[j]) else MergeCost(slots[j], slots[i])
    }

    /** The front is no worse than any pair before row i, or before column j in row i. */
    ghost predicate BestOf(pairs: seq<Pair>, slots: seq<Slot>, list: seq<nat>, i: nat, j: nat) {
      forall k, l :: 0 <= k < l < |list| && (k < i || (k == i && l < j)) ==> NoWorse(pairs, slots, list[k], list[l])
    }

    /** The pair of clusters a and b with its costs. */
    ghost function MergePair(slots: seq<Slot>, a: nat, b: nat): Pair
      requires a < |slots| && b < |slots| && |slots[a].hist| == |slots[b].hist|
    {
      Pair(a, b, cost(Add(slots[a].hist, slots[b].hist)), MergeCost(slots[a], slots[b]))
    }

    /** With room in the queue: the pair goes in, unless merging it costs something. */
    ghost predicate Offers(was: seq<Pair>, n0: nat, pairs: seq<Pair>, n: nat, slots: seq<Slot>, a: nat, b: nat) {
      && n0 <= |was| && n <= |pairs| && a < b < |slots| && |slots[a].hist| == |slots[b].hist|
      && (Bag(pairs, n) == Bag(was, n0) + multiset{MergePair(slots, a, b)} ||
          (Bag(pairs, n) == Bag(was, n0) && MergeCost(slots[a], slots[b]) >= 0.0))
    }

    /** The pair is queued, or merging it costs something. */
    ghost predicate Offered(pairs: seq<Pair>, n: nat, slots: seq<Slot>, a: nat, b: nat) {
      && n <= |pairs| && a < |slots| && b < |slots| && |slots[a].hist| == |slots[b].hist|
      && (MergePair(slots, a, b) in Bag(pairs, n) || MergeCost(slots[a], slots[b]) >= 0.0)
    }

    /** No pair is queued twice; those of the listed clusters that are done have been offered, the others are
        not queued. */
    ghost predicate Progress(pairs: seq<Pair>, n: nat, list: seq<nat>, slots: seq<Slot>, done: set<(nat, nat)>) {
      && n <= |pairs| && Once(pairs, n)
      && forall a, b :: a in list && b in list && a < b ==>
           if (a, b) in done then Offered(pairs, n, slots, a, b)
           else forall q :: q in Bag(pairs, n) ==> q.Names() != (a, b)
    }

    /** The slots after merging b into a. */
    ghost function Merge(slots: seq<Slot>, a: nat, b: nat): seq<Slot>
      requires a < |slots| && b < |slots| && |slots[a].hist| == |slots[b].hist|
    {
      var sum := Add(slots[a].hist, slots[b].hist);
      slots[a := Slot(sum, cost(sum), slots[a].total + slots[b].total, slots[a].size + slots[b].size)]
    }

    /** Clusters a and b can be merged, at a cost of at least x. */
    ghost predicate CostsAtLeast(slots: seq<Slot>, a: nat, b: nat, x: real) {
      && a < |slots| && b < |slots| && |slots[a].hist| == |slots[b].hist|
      && MergeCost(slots[Sorted(a, b).0], slots[Sorted(a, b).1]) >= x
    }

    /** Merging any two listed clusters costs at least x. */
    ghost predicate AllCost(s: Stage, x: real) {
      forall a, b :: a in s.list && b in s.list && a < b ==> CostsAtLeast(s.slots, a, b, x)
    }

    /** No pair costs less than x, and those that cost no more have names at least d apart. */
    ghost predicate BestPair(s: Stage, x: real, d: nat) {
      AllCost(s, x) && forall a, b :: a in s.list && b in s.list && a < b < a + d ==> Dearer(s.slots, a, b, x)
    }

    ghost predicate Dearer(slots: seq<Slot>, a: nat, b: nat, x: real) {
      && a < |slots| && b < |slots| && |slots[a].hist| == |slots[b].hist| && MergeCost(slots[a], slots[b]) > x
    }

    /** From s to t cluster b is merged into a. */
    ghost predicate Joins(s: Stage, t: Stage, a: nat, b: nat) {
      && a < b < |s.slots| && |s.slots[a].hist| == |s.slots[b].hist| && t.slots == Merge(s.slots, a, b)
      && a in s.list && exists i :: 0 <= i < |s.list| && s.list[i] == b && t.list == s.list[..i] + s.list[i + 1..]
    }

    /** A merge that saves cost is the best of all; one that does not is made only while there are too many clusters,
        and when no merge saves cost. Always it is no worse than any pair of the cluster merged just before; at the
        beginning, than any pair. */
    ghost predicate Step(l: Log, k: nat, maxClusters: nat, full: bool)
      requires k < |l.merged| && |l.stages| == |l.merged| + 1
    {
      var s, a, b := l.stages[k], l.merged[k].0, l.merged[k].1;
      && Joins(s, l.stages[k + 1], a, b)
      && var x := MergeCost(s.slots[a], s.slots[b]);
         && (x < 0.0 || |s.list| > maxClusters)
         && (full ==> if x < 0.0 then BestPair(s, x, b - a) else AllCost(s, 0.0))
         && FrontOf(l, k, s, x)
    }

    /** Nothing that was offered since the merge before number k costs less than x. */
    ghost predicate FrontOf(l: Log, k: nat, s: Stage, x: real)
      requires k <= |l.merged|
    {
      if k == 0 then AllCost(s, x)
      else forall c :: c in s.list && c != l.merged[k - 1].0 ==> CostsAtLeast(s.slots, l.merged[k - 1].0, c, x)
    }

    ghost predicate Greedy(l: Log, maxClusters: nat, full: bool) {
      |l.stages| == |l.merged| + 1 && forall k :: 0 <= k < |l.merged| ==> Step(l, k, maxClusters, full)
    }

    /** A cluster of input c alone. */
    function Own(c: nat): Slot
      requires c < |ins|
    {
      Slot(ins[c], cost(ins[c]), Total(ins[c]), 1)
    }

    /** Where greedy merging ends: no merge saves cost, unless merges that do not were needed to reach the limit. */
    ghost predicate Ends(l: Log, maxClusters: nat) {
      && l.stages != []
      && var s := l.stages[|l.stages| - 1];
         |s.list| <= 1 || AllCost(s, 0.0) || (|s.list| == maxClusters && exists k :: Loses(l, k))
    }

    /** Greedy merging of the inputs i .. i + m - 1. */
    ghost predicate Batch(l: Log, i: nat, m: nat, maxClusters: nat) {
      && Greedy(l, maxClusters, true) && Ends(l, maxClusters)
      && i + m <= |ins| <= |l.stages[0].slots| && |l.stages[0].list| == m
      && (forall j :: 0 <= j < m ==> l.stages[0].list[j] == i + j)
      && (forall c :: i <= c < i + m ==> l.stages[0].slots[c] == Own(c))
    }

    /** The batches of the first n inputs. */
    ghost predicate Batches(logs: seq<Log>, n: nat, maxClusters: nat) {
      && |ins| >= n && (n + 63) / 64 == |logs|
      && forall k :: 0 <= k < |logs| ==> Batch(logs[k], 64 * k, Min(64, n - 64 * k), maxClusters)
    }

    /** Merge number k does not save cost. */
    ghost predicate Loses(l: Log, k: nat) {
      k < |l.merged| && k < |l.stages| &&
      CostsAtLeast(l.stages[k].slots, l.merged[k].0, l.merged[k].1, 0.0)
    }

    /** Every two listed clusters are queued once, or merging them costs something. */
    ghost predicate Complete(pairs: seq<Pair>, n: nat, list: seq<nat>, slots: seq<Slot>) {
      && n <= |pairs| && Once(pairs, n)
      && forall a, b :: a in list && b in list && a < b ==> Offered(pairs, n, slots, a, b)
    }

    ghost predicate Queue(pairs: seq<Pair>, n: nat, list: seq<nat>, slots: seq<Slot>) {
      Best(pairs, n) && forall k :: 0 <= k < n ==> Current(pairs[k], list, slots)
    }
  }

  /** The list holds, each once, the clusters that the inputs lo .. hi - 1 use, and no others use them. */
  ghost predicate Lists(list: seq<nat>, symbols: seq<nat>, lo: nat, hi: nat) {
    && lo <= hi <= |symbols|
    && (forall j, k :: 0 <= j < k < |list| ==> list[j] != list[k])
    && (forall i :: lo <= i < hi ==> symbols[i] in list)
    && (forall i :: 0 <= i < |symbols| && !(lo <= i < hi) ==> symbols[i] !in list)
    && (forall k :: 0 <= k < |list| ==> list[k] in symbols[lo..hi])
  }

  /** Before any merge every input is its own cluster. */
  lemma {:induction false} SumIdentity(ins: seq<Hist>, alphabet: nat, s: seq<nat>, c: nat, k: nat)
    requires Inputs(ins, alphabet) && k <= |ins| <= |s| && c < |ins| && forall i :: 0 <= i < |s| ==> s[i] == i
    ensures Sum(ins, alphabet, s, c, k) == (if c < k then ins[c] else Zeros(alphabet))
            && Members(s, c, k) == if c < k then 1 else 0
  {
    if k > 0 {
      SumIdentity(ins, alphabet, s, c, k - 1);
      AddZero(ins[k - 1]);
    }
  }

  /** Renaming a cluster does not change its sum. */
  lemma {:induction false} SumRenamed(ins: seq<Hist>, alphabet: nat, s: seq<nat>, c: nat, t: seq<nat>, d: nat, k: nat)
    requires Inputs(ins, alphabet) && k <= |ins| <= |s| == |t|
             && forall i :: 0 <= i < |s| ==> (s[i] == c <==> t[i] == d)
    ensures Sum(ins, alphabet, s, c, k) == Sum(ins, alphabet, t, d, k)
  {
    if k > 0 { SumRenamed(ins, alphabet, s, c, t, d, k - 1); }
  }

  /** Two lists for neighbouring ranges of inputs make one. */
  lemma ListsJoin(l: seq<nat>, m: seq<nat>, s: seq<nat>, lo: nat, mid: nat, hi: nat)
    requires Lists(l, s, lo, mid) && Lists(m, s, mid, hi)
    ensures Lists(l + m, s, lo, hi)
  {
    forall k | 0 <= k < |l| ensures l[k] !in m {
      assert l[k] in s[lo..mid];
      var i :| lo <= i < mid && s[i] == l[k];
    }
    forall k | 0 <= k < |l + m|
      ensures (l + m)[k] in s[lo..hi]
    {
      assert s[lo..hi] == s[lo..mid] + s[mid..hi];
    }
  }

  lemma ListedExact(p: Problem, slots: seq<Slot>, symbols: seq<nat>, list: seq<nat>, lo: nat, hi: nat, c: nat)
    requires p.AllExact(slots, symbols) && Lists(list, symbols, lo, hi) && c in list
    ensures c < |slots| && p.Exact(slots[c], symbols, c)
  {
    hide Problem.Exact;
    var k :| 0 <= k < |list| && list[k] == c;
    assert c in symbols[lo..hi];
  }

  /** Redirecting b to a removes b from the list. */
  lemma ListsMerge(list: seq<nat>, s: seq<nat>, t: seq<nat>, lo: nat, hi: nat, a: nat, b: nat, i: nat)
    requires Lists(list, s, lo, hi) && a in list && a != b && i < |list| && list[i] == b && Redirected(t, s, a, b)
    ensures Lists(list[..i] + list[i + 1..], t, lo, hi)
    ensures a in list[..i] + list[i + 1..] && (forall c :: c in list[..i] + list[i + 1..] <==> c in list && c != b)
  {
    var r := list[..i] + list[i + 1..];
    forall c
      ensures c in r <==> c in list && c != b
    {
      WithoutMember(list, i, c);
    }
    forall k | 0 <= k < |r|
      ensures r[k] in t[lo..hi]
    {
      var c := r[k];
      assert c in s[lo..hi];
      var j :| lo <= j < hi && s[j] == c;
      assert t[j] == c;
      assert t[lo..hi][j - lo] == c;
    }
  }

  lemma WithoutMember(list: seq<nat>, i: nat, c: nat)
    requires i < |list| && forall j, k :: 0 <= j < k < |list| ==> list[j] != list[k]
    ensures c in list[..i] + list[i + 1..] <==> c in list && c != list[i]
  {
    var r := list[..i] + list[i + 1..];
    if c in list && c != list[i] {
      var k :| 0 <= k < |list| && list[k] == c;
      assert r[if k < i then k else k - 1] == c;
    }
    if c in r {
      var k :| 0 <= k < |r| && r[k] == c;
      assert c == list[if k < i then k else k + 1];
    }
  }

  /** Merging b into a keeps every cluster in use exact. */
  lemma ExactMerge(p: Problem, slots: seq<Slot>, s: seq<nat>, t: seq<nat>, a: nat, b: nat, merged: Slot)
    requires p.AllExact(slots, s) && a < |slots| && b < |slots| && a != b && Redirected(t, s, a, b)
    requires p.Exact(slots[a], s, a) && p.Exact(slots[b], s, b)
    requires |slots[a].hist| == |slots[b].hist| && merged.hist == Add(slots[a].hist, slots[b].hist)
    requires merged.bitCost == p.cost(merged.hist) && merged.total == slots[a].total + slots[b].total
             && merged.size == slots[a].size + slots[b].size
    ensures p.AllExact(slots[a := merged], t)
  {
    hide Add, Total, Sum, Members;
    MergeSums(p.ins, p.alphabet, s, t, a, b, |p.ins|);
    TotalAdd(slots[a].hist, slots[b].hist);
    assert p.Exact(merged, t, a);
    forall i | 0 <= i < |t|
      ensures t[i] < |slots| && p.Exact(slots[a := merged][t[i]], t, t[i])
    {
      if t[i] != a {
        MergeKeeps(p.ins, p.alphabet, s, t, a, b, s[i], |p.ins|);
      }
    }
  }

  /** The cost of a merged pair with an empty cluster is that of the other. */
  lemma EmptyCombo(p: Problem, slots: seq<Slot>, s: seq<nat>, a: nat, b: nat)
    requires p.Valid() && |s| == |p.ins| && a < |slots| && b < |slots| && p.Exact(slots[a], s, a)
             && p.Exact(slots[b], s, b)
    ensures |slots[a].hist| == |slots[b].hist| == p.alphabet
    ensures slots[a].total == 0 ==> p.cost(Add(slots[a].hist, slots[b].hist)) == slots[b].bitCost
    ensures slots[b].total == 0 ==> p.cost(Add(slots[a].hist, slots[b].hist)) == slots[a].bitCost
  {
    hide Add, Zeros, Sum, Total, Members;
    if slots[a].total == 0 {
      TotalZero(slots[a].hist);
      AddZero(slots[b].hist);
    }
    if slots[b].total == 0 {
      TotalZero(slots[b].hist);
      AddZero(slots[a].hist);
    }
  }

  // ---------- Which pairs have been offered to the queue ----------

  ghost predicate Distinct(list: seq<nat>) { forall j, k :: 0 <= j < k < |list| ==> list[j] != list[k] }

  /** The pairs of the rows before i, and those of row i before column j. */
  ghost function RowsDone(list: seq<nat>, i: nat, j: nat): set<(nat, nat)> {
    set k, l | 0 <= k < l < |list| && (k < i || (k == i && l < j)) :: Sorted(list[k], list[l])
  }

  /** The pairs that do not name a, and those of a with the first i clusters. */
  ghost function MergedDone(list: seq<nat>, a: nat, i: nat): set<(nat, nat)>
    requires i <= |list|
  {
    (set x, y | x in list && y in list && x < y && x != a && y != a :: (x, y)) +
    (set k | 0 <= k < i && list[k] != a :: Sorted(a, list[k]))
  }

  lemma SortedSame(a: nat, b: nat, c: nat, d: nat)
    ensures Sorted(a, b) == Sorted(c, d) <==> (a == c && b == d) || (a == d && b == c)
  {
  }

  lemma RowsStep(list: seq<nat>, i: nat, j: nat)
    requires Distinct(list) && i < j < |list|
    ensures RowsDone(list, i, j + 1) == RowsDone(list, i, j) + {Sorted(list[i], list[j])}
    ensures Sorted(list[i], list[j]) !in RowsDone(list, i, j)
  {
    hide Sorted;
    forall k, l | 0 <= k < l < |list| && Sorted(list[k], list[l]) == Sorted(list[i], list[j])
      ensures k == i && l == j
    {
      SortedSame(list[k], list[l], list[i], list[j]);
    }
  }

  lemma RowsWrap(list: seq<nat>, i: nat)
    ensures RowsDone(list, i, |list|) == RowsDone(list, i + 1, 0) && RowsDone(list, i, i + 1) == RowsDone(list, i, 0)
    ensures RowsDone(list, 0, 0) == {}
  {
    hide Sorted;
  }

  lemma RowsAll(list: seq<nat>, a: nat, b: nat)
    requires a in list && b in list && a < b
    ensures (a, b) in RowsDone(list, |list|, 0)
  {
    var k :| 0 <= k < |list| && list[k] == a;
    var l :| 0 <= l < |list| && list[l] == b;
    if k < l {
      assert Sorted(list[k], list[l]) == (a, b);
    } else {
      assert Sorted(list[l], list[k]) == (a, b);
    }
  }

  lemma MergedStep(list: seq<nat>, a: nat, i: nat)
    requires Distinct(list) && i < |list|
    ensures list[i] == a ==> MergedDone(list, a, i + 1) == MergedDone(list, a, i)
    ensures list[i] != a ==>
              && MergedDone(list, a, i + 1) == MergedDone(list, a, i) + {Sorted(a, list[i])}
              && Sorted(a, list[i]) !in MergedDone(list, a, i)
  {
    hide Sorted;
    forall k | 0 <= k < i
      ensures Sorted(a, list[k]) != Sorted(a, list[i])
    {
      SortedSame(a, list[k], a, list[i]);
    }
    SortedNames(a, list[i]);
  }

  lemma SortedNames(a: nat, b: nat)
    ensures a == Sorted(a, b).0 || a == Sorted(a, b).1
    ensures a != b ==> Sorted(a, b).0 < Sorted(a, b).1
  {
  }

  lemma MergedAll(list: seq<nat>, a: nat, x: nat, y: nat)
    requires x in list && y in list && x < y
    ensures (x, y) in MergedDone(list, a, |list|)
  {
    if x == a {
      var k :| 0 <= k < |list| && list[k] == y;
      assert Sorted(a, list[k]) == (x, y);
    } else if y == a {
      var k :| 0 <= k < |list| && list[k] == x;
      assert Sorted(a, list[k]) == (x, y);
    }
  }

  /** Offering a pair that was not offered before. */
  lemma OfferNext(p: Problem, was: seq<Pair>, n0: nat, pairs: seq<Pair>, n: nat, list: seq<nat>, slots: seq<Slot>,
                  a: nat,
                  b: nat, done: set<(nat, nat)>)
    requires p.Progress(was, n0, list, slots, done) && p.Offers(was, n0, pairs, n, slots, a, b)
    requires a in list && b in list && (a, b) !in done
    ensures p.Progress(pairs, n, list, slots, done + {(a, b)})
  {
    hide Problem.MergeCost, Bag;
    var q := p.MergePair(slots, a, b);
    assert q.Names() == (a, b);
    assert q !in Bag(was, n0);
    assert Bag(was, n0)[q] == 0;
    forall x, y | x in list && y in list && x < y
      ensures if (x, y) in done + {(a, b)} then p.Offered(pairs, n, slots, x, y)
              else forall r :: r in Bag(pairs, n) ==> r.Names() != (x, y)
    {
      if (x, y) in done { assert p.Offered(was, n0, slots, x, y); }
    }
  }

  lemma AllOffered(p: Problem, pairs: seq<Pair>, n: nat, list: seq<nat>, slots: seq<Slot>, done: set<(nat, nat)>)
    requires p.Progress(pairs, n, list, slots, done)
    requires forall a, b :: a in list && b in list && a < b ==> (a, b) in done
    ensures p.Complete(pairs, n, list, slots)
  {
    hide Problem.Offered;
  }

  lemma NothingOffered(p: Problem, pairs: seq<Pair>, list: seq<nat>, slots: seq<Slot>)
    ensures p.Progress(pairs, 0, list, slots, {})
  {
  }

  // ---------- Room for all pairs ----------

  /** The number of pairs of m clusters. */
  function PairsOf(m: nat): nat { if m == 0 then 0 else PairsOf(m - 1) + (m - 1) }

  lemma {:induction false} PairsFormula(m: nat)
    ensures 2 * PairsOf(m) == m * (m - 1)
  {
    if m > 0 { PairsFormula(m - 1); }
  }

  lemma {:induction false} PairsMonotone(m: nat, n: nat)
    requires m <= n
    ensures PairsOf(m) <= PairsOf(n)
    decreases n
  {
    if m < n { PairsMonotone(m, n - 1); }
  }

  ghost function NamePairs(list: seq<nat>): set<(nat, nat)> { set a, b | a in list && b in list && a < b :: (a, b) }

  lemma {:induction false} CountNamePairs(list: seq<nat>)
    ensures |NamePairs(list)| <= PairsOf(|list|)
  {
    if list != [] {
      var m := |list| - 1;
      var rest, c := list[..m], list[m];
      CountNamePairs(rest);
      var more := PairsWith(rest, c);
      assert list == rest + [c];
      forall a, b | a in rest + [c] && b in rest + [c] && a < b
        ensures (a, b) in NamePairs(rest) + more
      {
        OldOrNew(rest, c, more, a, b);
      }
      hide NamePairs, Sorted;
      NamesAre(list);
      SubsetSize(NamePairs(list), NamePairs(rest) + more);
    } else {
      assert NamePairs(list) == {};
    }
  }

  lemma OldOrNew(rest: seq<nat>, c: nat, more: set<(nat, nat)>, a: nat, b: nat)
    requires (forall x :: x in rest ==> Sorted(x, c) in more) && a in rest + [c] && b in rest + [c] && a < b
    ensures (a, b) in NamePairs(rest) + more
  {
    if a == c {
      assert b in rest && Sorted(b, c) == (a, b);
    } else if b == c {
      assert a in rest && Sorted(a, c) == (a, b);
    }
  }

  lemma NamesAre(list: seq<nat>)
    ensures forall x :: x in NamePairs(list) ==> x.0 in list && x.1 in list && x.0 < x.1
  {
  }

  lemma {:induction false} PairsWith(list: seq<nat>, c: nat) returns (r: set<(nat, nat)>)
    ensures |r| <= |list| && forall a :: a in list ==> Sorted(a, c) in r
  {
    if list == [] {
      r := {};
    } else {
      var m := |list| - 1;
      var r0 := PairsWith(list[..m], c);
      r := r0 + {Sorted(list[m], c)};
      assert list == list[..m] + [list[m]];
    }
  }

  lemma {:induction false} SubsetSize<T>(a: set<T>, b: set<T>)
    requires a <= b
    ensures |a| <= |b|
  {
    if a != {} {
      var x :| x in a;
      SubsetSize(a - {x}, b - {x});
    }
  }

  /** The names of the first k pairs. */
  lemma {:induction false} NamesCount(pairs: seq<Pair>, k: nat)
    requires k <= |pairs| && forall i, j :: 0 <= i < j < |pairs| ==> pairs[i].Names() != pairs[j].Names()
    ensures |set i | 0 <= i < k :: pairs[i].Names()| == k
  {
    if k > 0 {
      NamesCount(pairs, k - 1);
      assert (set i | 0 <= i < k :: pairs[i].Names()) ==
             (set i | 0 <= i < k - 1 :: pairs[i].Names()) + {pairs[k - 1].Names()};
    }
  }

  lemma OnceMeansDistinct(pairs: seq<Pair>, n: nat, i: nat, j: nat)
    requires i < j < n <= |pairs| && Once(pairs, n)
    ensures pairs[i] != pairs[j]
  {
    assert pairs[..n] == pairs[..j] + [pairs[j]] + pairs[j + 1..n];
    assert pairs[i] == pairs[..j][i];
    assert Bag(pairs, n)[pairs[j]] <= 1;
    assert multiset(pairs[..j])[pairs[i]] > 0;
    assert multiset(pairs[..j] + [pairs[j]] + pairs[j + 1..n])[pairs[j]] >= multiset(pairs[..j])[pairs[j]] + 1;
  }

  lemma NamesFit(pairs: seq<Pair>, list: seq<nat>)
    requires forall i, j :: 0 <= i < j < |pairs| ==> pairs[i].Names() != pairs[j].Names()
    requires forall i :: 0 <= i < |pairs| ==> pairs[i].Names() in NamePairs(list)
    ensures |pairs| <= PairsOf(|list|)
  {
    hide NamePairs, PairsOf;
    NamesCount(pairs, |pairs|);
    SubsetSize(set i | 0 <= i < |pairs| :: pairs[i].Names(), NamePairs(list));
    CountNamePairs(list);
  }

  /** While a pair has not been offered the queue holds fewer than all pairs. */
  lemma RoomLeft(p: Problem, pairs: seq<Pair>, n: nat, list: seq<nat>, slots: seq<Slot>, done: set<(nat, nat)>, a: nat,
                 b: nat)
    requires p.Progress(pairs, n, list, slots, done) && p.Queue(pairs, n, list, slots)
    requires a in list && b in list && a < b && (a, b) !in done
    ensures n < PairsOf(|list|)
  {
    hide Problem.Progress, Problem.Queue, Problem.Current, NamePairs, PairsOf;
    QueuedOthers(p, pairs, n, list, slots, done, a, b);
    ProgressOnce(p, pairs, n, list, slots, done);
    DifferentNames(p, pairs, n, list, slots);
    PairNamed(list, a, b);
    NamesFit(pairs[..n] + [Pair(a, b, 0.0, 0.0)], list);
  }

  lemma PairNamed(list: seq<nat>, a: nat, b: nat)
    requires a in list && b in list && a < b
    ensures (a, b) in NamePairs(list)
  {
  }

  lemma DifferentNames(p: Problem, pairs: seq<Pair>, n: nat, list: seq<nat>, slots: seq<Slot>)
    requires n <= |pairs| && Once(pairs, n) && forall k :: 0 <= k < n ==> p.Current(pairs[k], list, slots)
    ensures forall k :: 0 <= k < n ==> pairs[k].Names() in NamePairs(list)
    ensures forall i, j :: 0 <= i < j < n ==> pairs[i].Names() != pairs[j].Names()
  {
    hide Once, Problem.Current, NamePairs;
    forall k | 0 <= k < n ensures pairs[k].Names() in NamePairs(list) { Named(p, pairs[k], list, slots); }
    forall i, j | 0 <= i < j < n
      ensures pairs[i].Names() != pairs[j].Names()
    {
      OnceMeansDistinct(pairs, n, i, j);
      SameNames(p, pairs[i], pairs[j], list, slots);
    }
  }

  lemma QueuedOthers(p: Problem, pairs: seq<Pair>, n: nat, list: seq<nat>, slots: seq<Slot>, done: set<(nat, nat)>,
                     a: nat,
                     b: nat)
    requires p.Progress(pairs, n, list, slots, done) && p.Queue(pairs, n, list, slots)
    requires a in list && b in list && a < b && (a, b) !in done
    ensures n <= |pairs| && forall k :: 0 <= k < n ==> pairs[k].Names() != (a, b) && p.Current(pairs[k], list, slots)
  {
    hide Problem.Offered, Best, Bag, Problem.Current;
    forall k | 0 <= k < n
      ensures pairs[k].Names() != (a, b) && p.Current(pairs[k], list, slots)
    {
      InBag(pairs, n, k);
    }
  }

  lemma ProgressOnce(p: Problem, pairs: seq<Pair>, n: nat, list: seq<nat>, slots: seq<Slot>, done: set<(nat, nat)>)
    requires p.Progress(pairs, n, list, slots, done)
    ensures n <= |pairs| && Once(pairs, n)
  {
  }

  lemma SameNames(p: Problem, q: Pair, r: Pair, list: seq<nat>, slots: seq<Slot>)
    requires p.Current(q, list, slots) && p.Current(r, list, slots)
    ensures q.Names() == r.Names() ==> q == r
  {
  }

  lemma Named(p: Problem, q: Pair, list: seq<nat>, slots: seq<Slot>)
    requires p.Current(q, list, slots)
    ensures q.Names() in NamePairs(list)
  {
  }

  lemma InBag(pairs: seq<Pair>, n: nat, k: nat)
    requires k < n <= |pairs|
    ensures pairs[k] in Bag(pairs, n)
  {
    assert pairs[k] == pairs[..n][k];
  }

  // ---------- Merges ----------

  lemma {:induction false} KeptBag(pairs: seq<Pair>, n: nat, a: nat, b: nat, q: Pair)
    requires n <= |pairs|
    ensures multiset(Kept(pairs, n, a, b))[q] == if Meets(q, a, b) then 0 else Bag(pairs, n)[q]
  {
    hide Meets, Bag, Kept;
    if n > 0 {
      KeptBag(pairs, n - 1, a, b, q);
      BagNext(pairs, n - 1, q);
      KeptCount(pairs, n - 1, a, b, q);
    } else {
      KeptNone(pairs, a, b, q);
    }
  }

  lemma KeptNone(pairs: seq<Pair>, a: nat, b: nat, q: Pair)
    ensures multiset(Kept(pairs, 0, a, b))[q] == 0 == Bag(pairs, 0)[q]
  {
    assert pairs[..0] == [];
  }

  lemma KeptCount(pairs: seq<Pair>, n: nat, a: nat, b: nat, q: Pair)
    requires n < |pairs|
    ensures multiset(Kept(pairs, n + 1, a, b))[q] ==
            multiset(Kept(pairs, n, a, b))[q] + if !Meets(q, a, b) && pairs[n] == q then 1 else 0
  {
    KeptNext(pairs, n, a, b);
    hide Kept, Meets;
    AppendCount(Kept(pairs, n, a, b), pairs[n], q);
  }

  lemma BagNext(pairs: seq<Pair>, n: nat, q: Pair)
    requires n < |pairs|
    ensures Bag(pairs, n + 1)[q] == Bag(pairs, n)[q] + if pairs[n] == q then 1 else 0
  {
    assert pairs[..n + 1] == pairs[..n] + [pairs[n]];
    AppendCount(pairs[..n], pairs[n], q);
  }

  lemma AppendCount(s: seq<Pair>, x: Pair, q: Pair)
    ensures multiset(s + [x])[q] == multiset(s)[q] + if x == q then 1 else 0
    ensures multiset(s + [])[q] == multiset(s)[q]
  {
    assert s + [] == s;
  }

  /** After the pairs of the merged clusters are gone, those of the new cluster are to be offered. */
  lemma Dropped(p: Problem, orig: seq<Pair>, n0: nat, pairs: seq<Pair>, n: nat, list: seq<nat>, slots0: seq<Slot>,
                list': seq<nat>, slots: seq<Slot>, a: nat, b: nat)
    requires p.Complete(orig, n0, list, slots0) && n <= |pairs| && Bag(pairs, n) == multiset(Kept(orig, n0, a, b))
    requires |slots| == |slots0| && forall c :: 0 <= c < |slots| && c != a ==> slots[c] == slots0[c]
    requires forall c :: c in list' <==> c in list && c != b
    ensures p.Progress(pairs, n, list', slots, MergedDone(list', a, 0))
  {
    hide Problem.MergeCost, Kept, Bag;
    forall q ensures Bag(pairs, n)[q] <= 1 { KeptBag(orig, n0, a, b, q); }
    forall x, y | x in list' && y in list' && x < y
      ensures if (x, y) in MergedDone(list', a, 0) then p.Offered(pairs, n, slots, x, y)
              else forall q :: q in Bag(pairs, n) ==> q.Names() != (x, y)
    {
      if x != a && y != a {
        assert p.Offered(orig, n0, slots0, x, y);
        KeptBag(orig, n0, a, b, p.MergePair(slots0, x, y));
      } else {
        forall q | q in Bag(pairs, n) ensures q.Names() != (x, y) { KeptBag(orig, n0, a, b, q); }
      }
    }
  }

  /** The front of a complete queue. */
  lemma FrontIsBest(p: Problem, pairs: seq<Pair>, n: nat, list: seq<nat>, slots: seq<Slot>)
    requires p.Queue(pairs, n, list, slots) && p.Complete(pairs, n, list, slots) && n > 0
    ensures var q := pairs[0];
            && q.idx1 < q.idx2
            && (q.costDiff < 0.0 ==> p.BestPair(Stage(list, slots), q.costDiff, q.idx2 - q.idx1))
            && (q.costDiff >= 0.0 ==> p.AllCost(Stage(list, slots), 0.0))
  {
    hide Problem.Current, Bag;
    var q := pairs[0];
    forall a, b | a in list && b in list && a < b
      ensures p.CostsAtLeast(slots, a, b, if q.costDiff < 0.0 then q.costDiff else 0.0)
      ensures b < a + (q.idx2 - q.idx1) && q.costDiff < 0.0 ==> p.Dearer(slots, a, b, q.costDiff)
    {
      assert p.Offered(pairs, n, slots, a, b);
      if p.MergePair(slots, a, b) in Bag(pairs, n) {
        var k := FromBag(pairs, n, p.MergePair(slots, a, b));
        assert !Less(pairs[0], pairs[k]);
      }
    }
  }

  lemma FromBag(pairs: seq<Pair>, n: nat, q: Pair) returns (k: nat)
    requires n <= |pairs| && q in Bag(pairs, n)
    ensures k < n && pairs[k] == q
  {
    assert q in pairs[..n];
    k :| 0 <= k < n && pairs[k] == q;
  }

  class Clusterer {
    const p: Problem
    var slots: seq<Slot>
    var symbols: seq<nat>
    var clusters: seq<nat>
    var pairs: seq<Pair>
    var numPairs: nat

    ghost predicate Valid() reads this { p.AllExact(slots, symbols) && |clusters| == |p.ins| }

    /** The clusters being combined. */
    function List(at: nat, n: nat): seq<nat>
      reads this`clusters
      requires at + n <= |clusters|
    {
      clusters[at..at + n]
    }

    constructor (problem: Problem)
      requires problem.Valid()
      ensures p == problem && |clusters| == |slots| == |symbols| == |p.ins|
    {
      p := problem;
      slots := seq(|problem.ins|, _ => Slot([], 0.0, 0, 0));
      symbols := seq(|problem.ins|, _ => 0);
      clusters := seq(|problem.ins|, _ => 0);
      pairs, numPairs := [], 0;
    }

    /** Evaluates a merge and queues it if it may be worth it; into an empty queue it always goes. */
    method Push(i: nat, j: nat, maxNumPairs: nat, ghost list: seq<nat>, ghost lo: nat, ghost hi: nat)
      requires Valid() && Lists(list, symbols, lo, hi) && i in list && j in list
      requires p.Queue(pairs, numPairs, list, slots) && numPairs <= maxNumPairs <= |pairs|
      modifies this`pairs, this`numPairs
      ensures p.Queue(pairs, numPairs, list, slots)
              && old(numPairs) <= numPairs <= maxNumPairs <= |pairs| == |old(pairs)|
      ensures i != j && maxNumPairs > 0 ==> numPairs > 0 && p.NoWorse(pairs, slots, i, j)
      ensures i == j ==> pairs == old(pairs) && numPairs == old(numPairs)
      ensures i != j && old(numPairs) < maxNumPairs ==>
                p.Offers(old(pairs), old(numPairs), pairs, numPairs, slots, Sorted(i, j).0, Sorted(i, j).1)
      ensures old(numPairs) > 0 ==> |old(pairs)| > 0 && pairs[0].costDiff <= old(pairs)[0].costDiff
    {
      hide Lists, Best, Add, Problem.Exact, Problem.AllExact, Less, Problem.Valid, Bag, Problem.Queue, Problem.Current,
        Problem.Offers;
      if i == j { return; }
      var a, b := if i < j then i else j, if i < j then j else i;
      ListedExact(p, slots, symbols, list, lo, hi, a);
      ListedExact(p, slots, symbols, list, lo, hi, b);
      ProblemValid(p, slots, symbols);
      EmptyCombo(p, slots, symbols, a, b);
      CostBounds(p, slots[a].hist, slots[b].hist, slots[a].size, slots[b].size);
      CostIs(p, slots[a], symbols, a);
      CostIs(p, slots[b], symbols, b);
      var diff := 0.5 * p.gain(slots[a].size, slots[b].size) - slots[a].bitCost - slots[b].bitCost;
      var combo;
      var good := true;
      if slots[a].total == 0 {
        combo := slots[b].bitCost;
      } else if slots[b].total == 0 {
        combo := slots[a].bitCost;
      } else {
        var threshold := if numPairs > 0 then MaxReal(0.0, pairs[0].costDiff) else INFINITE_COST;
        combo := p.cost(Add(slots[a].hist, slots[b].hist));
        good := combo < threshold - diff;
      }
      ghost var was, n0 := pairs, numPairs;
      QueueSize(p, pairs, numPairs, list, slots);
      IsOffer(p, was, n0, slots, a, b);
      if good {
        PairCurrent(p, slots, list, a, b);
        Insert(Pair(a, b, combo, diff + combo), maxNumPairs, list);
      }
    }

    /** Puts a pair in front if it is the best, and otherwise behind if there is room. */
    method Insert(q: Pair, maxNumPairs: nat, ghost list: seq<nat>)
      requires p.Queue(pairs, numPairs, list, slots) && numPairs <= maxNumPairs <= |pairs| && p.Current(q, list, slots)
      modifies this`pairs, this`numPairs
      ensures p.Queue(pairs, numPairs, list, slots)
              && old(numPairs) <= numPairs <= maxNumPairs <= |pairs| == |old(pairs)|
      ensures maxNumPairs > 0 ==> numPairs > 0 && pairs[0].costDiff <= q.costDiff
      ensures old(numPairs) < maxNumPairs ==> Bag(pairs, numPairs) == old(Bag(pairs, numPairs)) + multiset{q}
      ensures old(numPairs) > 0 ==> |old(pairs)| > 0 && pairs[0].costDiff <= old(pairs)[0].costDiff
    {
      hide Problem.Current, Best, Bag, Less;
      IsOrdered(p, q, list, slots);
      LessCost(pairs, q);
      BestOrdered(pairs, numPairs);
      if numPairs < maxNumPairs { PutFront(pairs, numPairs, q); }
      if numPairs > 0 && Less(pairs[0], q) {
        if numPairs < maxNumPairs {
          BestGrows(pairs, numPairs, q);
          pairs := pairs[numPairs := pairs[0]][0 := q];
          numPairs := numPairs + 1;
        } else {
          BestReplaced(pairs, numPairs, q);
          pairs := pairs[0 := q];
        }
      } else if numPairs < maxNumPairs {
        BestGrows(pairs, numPairs, q);
        pairs := pairs[numPairs := q];
        numPairs := numPairs + 1;
      }
    }

    /** Removes the pairs that meet a merged one, in place; the best of the others moves to the front. */
    method DropPairs(a: nat, b: nat, ghost list: seq<nat>, ghost slots0: seq<Slot>, ghost list': seq<nat>)
      requires p.Queue(pairs, numPairs, list, slots0) && numPairs > 0 && pairs[0].idx1 == a && pairs[0].idx2 == b
      requires |slots| == |slots0| && (forall c :: 0 <= c < |slots| && c != a ==> slots[c] == slots0[c])
      requires forall c :: c in list && c != b ==> c in list'
      modifies this`pairs, this`numPairs
      ensures p.Queue(pairs, numPairs, list', slots) && numPairs <= old(numPairs) <= |old(pairs)| == |pairs|
      ensures Bag(pairs, numPairs) == multiset(Kept(old(pairs), old(numPairs), a, b))
    {
      hide Problem.Current, Less, Part, Best;
      ghost var orig := pairs;
      BestOrdered(pairs, numPairs);
      PartNone(p, orig, a, b, list', slots);
      var copyTo := 0;
      for i := 0 to numPairs
        invariant copyTo <= i && numPairs <= |pairs| == |orig| && numPairs == old(numPairs)
        invariant forall k :: i <= k < numPairs ==> pairs[k] == orig[k]
        invariant copyTo == 0 ==> pairs[0] == orig[0]
        invariant Part(p, pairs, copyTo, orig, i, a, b, list', slots)
      {
        var q := pairs[i];
        if Meets(q, a, b) {
          PartSkip(p, pairs, copyTo, orig, i, a, b, list', slots);
          continue;
        }
        StillCurrent(p, q, list, slots0, list', slots, a, b);
        assert copyTo == 0 ==> !Less(pairs[0], q) by { BestFront(orig, numPairs, i); }
        PartOrdered(p, pairs, copyTo, orig, i, a, b, list', slots);
        PartNext(p, pairs, copyTo, orig, i, a, b, list', slots);
        if Less(pairs[0], q) {
          pairs := pairs[copyTo := pairs[0]][0 := q];
        } else {
          pairs := pairs[copyTo := q];
        }
        copyTo := copyTo + 1;
      }
      PartAll(p, pairs, copyTo, orig, numPairs, a, b, list', slots);
      numPairs := copyTo;
    }

    /** Merges the second cluster of the best pair into the first. */
    method MergeBest(at: nat, n: nat, lo: nat, hi: nat) returns (a: nat, b: nat)
      requires Valid() && at + n <= |clusters| && n >= 2 && Lists(List(at, n), symbols, lo, hi) && numPairs > 0
      requires p.Queue(pairs, numPairs, List(at, n), slots)
      modifies this`slots, this`symbols, this`clusters
      ensures Valid() && Lists(List(at, n - 1), symbols, lo, hi)
      ensures a == pairs[0].idx1 && b == pairs[0].idx2 && a in List(at, n - 1)
      ensures |slots| == |old(slots)| && forall c :: 0 <= c < |slots| && c != a ==> slots[c] == old(slots)[c]
      ensures forall c :: c in List(at, n - 1) <==> c in old(List(at, n)) && c != b
      ensures p.Joins(Stage(old(List(at, n)), old(slots)), Stage(List(at, n - 1), slots), a, b)
      ensures clusters[..at] == old(clusters)[..at] && clusters[at + n..] == old(clusters)[at + n..]
      ensures |symbols| == |old(symbols)|
              && forall i :: 0 <= i < |symbols| && !(lo <= i < hi) ==> symbols[i] == old(symbols)[i]
    {
      hide Problem.Exact, Best, Add, Lists, Problem.AllExact, List;
      BestOrdered(pairs, numPairs);
      var best := pairs[0];
      assert p.Current(best, List(at, n), slots);
      a, b := best.idx1, best.idx2;
      ghost var list, s := List(at, n), symbols;
      MergeSlots(a, b, best.costCombo, lo, hi, list);
      var i := Find(at, n, b);
      ListAt(at, n, i);
      ListsMerge(list, s, symbols, lo, hi, a, b, i);
      Remove(at, n, i);
    }

    lemma ListAt(at: nat, n: nat, i: nat)
      requires at + n <= |clusters| && i < n
      ensures |List(at, n)| == n && List(at, n)[i] == clusters[at + i] && clusters[at + i] in List(at, n)
      ensures List(at, n)[..i + 1] == List(at, n)[..i] + [clusters[at + i]]
    {
    }

    /** Adds up the slots and redirects the inputs. */
    method MergeSlots(a: nat, b: nat, combo: real, lo: nat, hi: nat, ghost list: seq<nat>)
      requires Valid() && Lists(list, symbols, lo, hi) && a in list && b in list && a != b && a < |slots| && b < |slots|
      requires |slots[a].hist| == |slots[b].hist| && combo == p.cost(Add(slots[a].hist, slots[b].hist))
      modifies this`slots, this`symbols
      ensures Valid() && Redirected(symbols, old(symbols), a, b) && slots == p.Merge(old(slots), a, b)
      ensures |symbols| == |old(symbols)|
              && forall i :: 0 <= i < |symbols| && !(lo <= i < hi) ==> symbols[i] == old(symbols)[i]
    {
      hide Problem.Exact, Add, Lists, Problem.AllExact;
      ListedExact(p, slots, symbols, list, lo, hi, a);
      ListedExact(p, slots, symbols, list, lo, hi, b);
      ListsInside(list, symbols, lo, hi);
      var merged :=
        Slot(Add(slots[a].hist, slots[b].hist), combo, slots[a].total + slots[b].total, slots[a].size + slots[b].size);
      var t := Redirect(lo, hi, a, b);
      ListedNowhereElse(list, symbols, lo, hi, b);
      ExactMerge(p, slots, symbols, t, a, b, merged);
      slots, symbols := slots[a := merged], t;
    }

    /** Removes the i-th cluster of the list by moving those behind it. */
    method Remove(at: nat, n: nat, i: nat)
      requires at + n <= |clusters| && i < n
      modifies this`clusters
      ensures |clusters| == |old(clusters)| && List(at, n - 1) == old(List(at, n)[..i] + List(at, n)[i + 1..])
      ensures clusters[..at] == old(clusters)[..at] && clusters[at + n..] == old(clusters)[at + n..]
    {
      ghost var list := List(at, n);
      var shifted := clusters[..at + i] + clusters[at + i + 1..at + n] + clusters[at + n - 1..];
      assert shifted[at..at + n - 1] == list[..i] + list[i + 1..];
      clusters := shifted;
    }

    method Redirect(lo: nat, hi: nat, a: nat, b: nat) returns (t: seq<nat>)
      requires lo <= hi <= |symbols|
      ensures |t| == |symbols|
              && forall i :: 0 <= i < |t| ==> t[i] == if lo <= i < hi && symbols[i] == b then a else symbols[i]
    {
      t := symbols;
      for i := lo to hi
        invariant |t| == |symbols|
                  && forall k :: 0 <= k < |t| ==> t[k] == if lo <= k < i && symbols[k] == b then a else symbols[k]
      {
        if t[i] == b { t := t[i := a]; }
      }
    }

    method Find(at: nat, n: nat, b: nat) returns (i: nat)
      requires at + n <= |clusters| && b in List(at, n)
      ensures i < n && clusters[at + i] == b
    {
      i := 0;
      while i < n && clusters[at + i] != b
        invariant i <= n && forall k :: 0 <= k < i ==> List(at, n)[k] != b
      {
        i := i + 1;
      }
    }

    /** Queues the pairs of the list; the front is then the best of all of them. */
    method PushAll(at: nat, n: nat, lo: nat, hi: nat, maxNumPairs: nat)
      requires Valid() && at + n <= |clusters| && Lists(List(at, n), symbols, lo, hi) && maxNumPairs <= |pairs|
               && (n >= 2 ==> maxNumPairs > 0)
      modifies this`pairs, this`numPairs
      ensures p.Queue(pairs, numPairs, List(at, n), slots) && numPairs <= maxNumPairs <= |pairs| == |old(pairs)|
              && (n >= 2 ==> numPairs > 0)
      ensures p.BestOf(pairs, slots, List(at, n), n, 0)
      ensures PairsOf(n) <= maxNumPairs ==> p.Complete(pairs, numPairs, List(at, n), slots)
    {
      hide Lists, Problem.AllExact, Problem.BestOf, Problem.Queue, Problem.Progress, Problem.Complete, PairsOf,
        RowsDone;
      numPairs := 0;
      EmptyQueue(List(at, n));
      NothingOffered(p, pairs, List(at, n), slots);
      RowsWrap(List(at, n), 0);
      ListLength(at, n);
      for i := 0 to n
        invariant p.Queue(pairs, numPairs, List(at, n), slots) && numPairs <= maxNumPairs <= |pairs| == |old(pairs)|
                  && (i > 0 && n >= 2 ==> numPairs > 0)
        invariant p.BestOf(pairs, slots, List(at, n), i, 0)
        invariant PairsOf(n) <= maxNumPairs ==>
                  p.Progress(pairs, numPairs, List(at, n), slots, RowsDone(List(at, n), i, 0))
      {
        PushRow(i, at, n, lo, hi, maxNumPairs);
      }
      if PairsOf(n) <= maxNumPairs {
        forall a, b | a in List(at, n) && b in List(at, n) && a < b
          ensures (a, b) in RowsDone(List(at, n), n, 0)
        {
          RowsAll(List(at, n), a, b);
        }
        AllOffered(p, pairs, numPairs, List(at, n), slots, RowsDone(List(at, n), n, 0));
      }
    }

    lemma EmptyQueue(list: seq<nat>)
      ensures p.Queue(pairs, 0, list, slots) && p.BestOf(pairs, slots, list, 0, 0)
    {
    }

    /** The pairs of cluster i with those behind it. */
    method PushRow(i: nat, at: nat, n: nat, lo: nat, hi: nat, maxNumPairs: nat)
      requires Valid() && i < n && at + n <= |clusters| && Lists(List(at, n), symbols, lo, hi)
               && (n >= 2 ==> maxNumPairs > 0)
      requires p.Queue(pairs, numPairs, List(at, n), slots) && numPairs <= maxNumPairs <= |pairs|
               && (i > 0 ==> numPairs > 0)
      requires p.BestOf(pairs, slots, List(at, n), i, 0)
      requires PairsOf(n) <= maxNumPairs ==>
               p.Progress(pairs, numPairs, List(at, n), slots, RowsDone(List(at, n), i, 0))
      modifies this`pairs, this`numPairs
      ensures p.Queue(pairs, numPairs, List(at, n), slots) && numPairs <= maxNumPairs <= |pairs| == |old(pairs)|
              && (n >= 2 ==> numPairs > 0)
      ensures p.BestOf(pairs, slots, List(at, n), i + 1, 0)
      ensures PairsOf(n) <= maxNumPairs ==>
                p.Progress(pairs, numPairs, List(at, n), slots, RowsDone(List(at, n), i + 1, 0))
    {
      hide Lists, Problem.AllExact, Problem.NoWorse, Problem.BestOf, Problem.Queue, List, Problem.Progress, PairsOf,
        RowsDone, Problem.Offers, Sorted;
      RowStart(p, pairs, slots, List(at, n), i);
      ListLength(at, n);
      RowsWrap(List(at, n), i);
      ListsDistinct(List(at, n), symbols, lo, hi);
      for j := i + 1 to n
        invariant p.Queue(pairs, numPairs, List(at, n), slots) && numPairs <= maxNumPairs <= |pairs| == |old(pairs)|
        invariant i > 0 || j > i + 1 ==> numPairs > 0
        invariant p.BestOf(pairs, slots, List(at, n), i, j)
        invariant PairsOf(n) <= maxNumPairs ==>
                    p.Progress(pairs, numPairs, List(at, n), slots, RowsDone(List(at, n), i, j))
      {
        ListAt(at, n, i);
        ListAt(at, n, j);
        Apart(List(at, n), symbols, lo, hi, i, j);
        ghost var was, n0 := pairs, numPairs;
        RowsStep(List(at, n), i, j);
        PushOffer(clusters[at + i], clusters[at + j], maxNumPairs, List(at, n), lo, hi, RowsDone(List(at, n), i, j),
                  PairsOf(n) <= maxNumPairs);
        RowNext(p, was, pairs, slots, List(at, n), i, j);
      }
      RowEnd(p, pairs, slots, List(at, n), i);
    }

    /** A push of a pair that was not offered before. */
    method PushOffer(i: nat, j: nat, maxNumPairs: nat, ghost list: seq<nat>, ghost lo: nat, ghost hi: nat,
                     ghost done: set<(nat, nat)>, ghost full: bool)
      requires Valid() && Lists(list, symbols, lo, hi) && i in list && j in list
      requires p.Queue(pairs, numPairs, list, slots) && numPairs <= maxNumPairs <= |pairs|
      requires full ==> PairsOf(|list|) <= maxNumPairs && p.Progress(pairs, numPairs, list, slots, done)
      requires i != j ==> Sorted(i, j) !in done
      modifies this`pairs, this`numPairs
      ensures p.Queue(pairs, numPairs, list, slots)
              && old(numPairs) <= numPairs <= maxNumPairs <= |pairs| == |old(pairs)|
      ensures i != j && maxNumPairs > 0 ==> numPairs > 0 && p.NoWorse(pairs, slots, i, j)
      ensures old(numPairs) > 0 ==> |old(pairs)| > 0 && pairs[0].costDiff <= old(pairs)[0].costDiff
      ensures i == j ==> pairs == old(pairs) && numPairs == old(numPairs)
      ensures full ==>
                p.Progress(pairs, numPairs, list, slots, if i == j then done else done + {Sorted(i, j)})
    {
      hide Lists, Problem.AllExact, Problem.NoWorse, Problem.Queue, Problem.Progress, PairsOf, Problem.Offers;
      ghost var was, n0 := pairs, numPairs;
      if full && i != j {
        RoomLeft(p, pairs, numPairs, list, slots, done, Sorted(i, j).0, Sorted(i, j).1);
      }
      Push(i, j, maxNumPairs, list, lo, hi);
      if full && i != j {
        OfferNext(p, was, n0, pairs, numPairs, list, slots, Sorted(i, j).0, Sorted(i, j).1, done);
      }
    }

    lemma ListLength(at: nat, n: nat)
      requires at + n <= |clusters|
      ensures |List(at, n)| == n
    {
    }

    /** Queues the pairs of a merged cluster with the others. */
    method PushMerged(a: nat, at: nat, n: nat, lo: nat, hi: nat, maxNumPairs: nat, ghost full: bool)
      requires Valid() && at + n <= |clusters| && Lists(List(at, n), symbols, lo, hi) && a in List(at, n)
      requires p.Queue(pairs, numPairs, List(at, n), slots) && numPairs <= maxNumPairs <= |pairs| && maxNumPairs > 0
      requires full ==>
                 PairsOf(n) <= maxNumPairs
                   && p.Progress(pairs, numPairs, List(at, n), slots, MergedDone(List(at, n), a, 0))
      modifies this`pairs, this`numPairs
      ensures p.Queue(pairs, numPairs, List(at, n), slots) && numPairs <= maxNumPairs <= |pairs| == |old(pairs)|
              && (n >= 2 ==> numPairs > 0)
      ensures forall c :: c in List(at, n) && c != a ==> p.NoWorse(pairs, slots, a, c)
      ensures full ==> p.Complete(pairs, numPairs, List(at, n), slots)
    {
      hide Lists, Problem.AllExact, Problem.NoWorse, Problem.Queue, Problem.Progress, Problem.Complete, PairsOf, List,
        MergedDone, Sorted;
      ListLength(at, n);
      ListsDistinct(List(at, n), symbols, lo, hi);
      for i := 0 to n
        invariant p.Queue(pairs, numPairs, List(at, n), slots) && numPairs <= maxNumPairs <= |pairs| == |old(pairs)|
        invariant numPairs > 0 || forall k :: 0 <= k < i ==> List(at, n)[k] == a
        invariant forall k :: 0 <= k < i && List(at, n)[k] != a ==> p.NoWorse(pairs, slots, a, List(at, n)[k])
        invariant full ==>
                    p.Progress(pairs, numPairs, List(at, n), slots, MergedDone(List(at, n), a, i))
      {
        ListAt(at, n, i);
        MergedStep(List(at, n), a, i);
        ghost var was := pairs;
        PushOffer(a, clusters[at + i], maxNumPairs, List(at, n), lo, hi, MergedDone(List(at, n), a, i), full);
        forall k | 0 <= k < i && List(at, n)[k] != a
          ensures p.NoWorse(pairs, slots, a, List(at, n)[k])
        {
          StillNoWorse(p, was, pairs, slots, a, List(at, n)[k]);
        }
      }
      if n >= 2 { Apart(List(at, n), symbols, lo, hi, 0, 1); }
      if full {
        forall x, y | x in List(at, n) && y in List(at, n) && x < y
          ensures (x, y) in MergedDone(List(at, n), a, n)
        {
          MergedAll(List(at, n), a, x, y);
        }
        AllOffered(p, pairs, numPairs, List(at, n), slots, MergedDone(List(at, n), a, n));
      }
    }

    /** Merges the best pairs: first while a merge saves cost, then until at most maxClusters are left. If
        there are fewer than that, but more than one, then no queued merge saves cost. If the queue can hold all
        pairs, then no merge at all saves cost, unless the limit was reached by merges that do not. */
    method Combine(at: nat, num: nat, lo: nat, hi: nat, maxClusters: nat, maxNumPairs: nat)
      returns (n: nat, ghost log: Log)
      requires Valid() && at + num <= |clusters| && Lists(List(at, num), symbols, lo, hi)
      requires maxClusters >= 1 && maxNumPairs <= |pairs| && (num >= 2 ==> maxNumPairs > 0)
      modifies this
      ensures Valid() && n <= num && (num > 0 ==> n > 0) && n <= maxClusters && Lists(List(at, n), symbols, lo, hi)
      ensures forall c :: c in List(at, n) ==> c in old(List(at, num))
      ensures 1 < n < maxClusters ==>
              p.Queue(pairs, numPairs, List(at, n), slots) && numPairs > 0 && |pairs| > 0 && pairs[0].costDiff >= 0.0
      ensures p.Greedy(log, maxClusters, PairsOf(num) <= maxNumPairs)
      ensures log.stages[0] == old(Stage(List(at, num), slots)) && log.EndsIn(Stage(List(at, n), slots))
      ensures PairsOf(num) <= maxNumPairs ==> p.Ends(log, maxClusters)
      ensures |slots| == |old(slots)|
              && forall c :: 0 <= c < |slots| && c !in old(List(at, num)) ==> slots[c] == old(slots)[c]
      ensures clusters[..at] == old(clusters)[..at] && clusters[at + num..] == old(clusters)[at + num..]
              && |pairs| == |old(pairs)|
      ensures |symbols| == |old(symbols)|
              && forall i :: 0 <= i < |symbols| && !(lo <= i < hi) ==> symbols[i] == old(symbols)[i]
    {
      hide Lists, Problem.AllExact, Problem.Queue, Problem.Complete, Problem.Greedy, Problem.FrontOf, Problem.BestOf,
        PairsOf,
        Problem.Loses, Problem.AllCost, List;
      var threshold, minClusters := 0.0, 1;
      n := num;
      ghost var full, late := PairsOf(num) <= maxNumPairs, -1;
      PushAll(at, n, lo, hi, maxNumPairs);
      log := Log([Stage(List(at, n), slots)], []);
      NoSteps(p, log, maxClusters, full);
      ListLength(at, n);
      if n >= 2 { FrontFirst(p, pairs, slots, List(at, n), log); }
      while n > minClusters
        invariant Valid() && n <= num && (num > 0 ==> n > 0) && at + num <= |clusters|
                  && Lists(List(at, n), symbols, lo, hi)
        invariant forall c :: c in List(at, n) ==> c in old(List(at, num))
        invariant p.Queue(pairs, numPairs, List(at, n), slots) && numPairs <= maxNumPairs <= |pairs| == |old(pairs)|
                  && (n >= 2 ==> numPairs > 0)
        invariant (threshold == 0.0 && minClusters == 1) || (threshold == INFINITE_COST && minClusters == maxClusters)
        invariant full ==> PairsOf(n) <= maxNumPairs && p.Complete(pairs, numPairs, List(at, n), slots)
        invariant p.Greedy(log, maxClusters, full) && log.EndsIn(Stage(List(at, n), slots))
        invariant log.stages[0] == old(Stage(List(at, num), slots))
        invariant n >= 2 ==> |pairs| > 0 && p.FrontOf(log, |log.merged|, Stage(List(at, n), slots), pairs[0].costDiff)
        invariant threshold == INFINITE_COST && late < 0 && n > 1 ==> |pairs| > 0 && pairs[0].costDiff >= 0.0
        invariant late >= 0 ==> threshold == INFINITE_COST && p.Loses(log, late) && n >= maxClusters
        invariant |slots| == |old(slots)|
                  && forall c :: 0 <= c < |slots| && c !in old(List(at, num)) ==> slots[c] == old(slots)[c]
        invariant clusters[..at] == old(clusters)[..at] && clusters[at + num..] == old(clusters)[at + num..]
                  && |pairs| == |old(pairs)|
        invariant |symbols| == |old(symbols)|
                  && forall i :: 0 <= i < |symbols| && !(lo <= i < hi) ==> symbols[i] == old(symbols)[i]
        decreases n, if threshold == 0.0 then 1 else 0
      {
        FrontBounded(at, n, lo, hi);
        if pairs[0].costDiff >= threshold {
          threshold, minClusters := INFINITE_COST, maxClusters;
          continue;
        }
        ghost var l0, m, losing := log, |log.merged|, pairs[0].costDiff >= 0.0;
        PairsMonotone(n - 1, n);
        n, log := CombineStep(at, n, lo, hi, maxNumPairs, maxClusters, full, log);
        if late >= 0 {
          LosesStill(p, l0, log, late);
        } else if losing {
          late := m;
        }
      }
      ListLength(at, n);
      if full && n > 1 && late < 0 { FrontSaves(p, pairs, numPairs, List(at, n), slots); }
    }

    /** The front of the queue can be merged once the threshold is infinite. */
    lemma FrontBounded(at: nat, n: nat, lo: nat, hi: nat)
      requires Valid() && at + n <= |clusters| && Lists(List(at, n), symbols, lo, hi)
               && p.Queue(pairs, numPairs, List(at, n), slots) && numPairs > 0
      ensures |pairs| > 0 && pairs[0].costDiff < INFINITE_COST
    {
      hide Lists, Best, Problem.AllExact, Problem.Exact, Add, Problem.Valid;
      BestOrdered(pairs, numPairs);
      var q := pairs[0];
      assert p.Current(q, List(at, n), slots);
      ProblemValid(p, slots, symbols);
      ListedExact(p, slots, symbols, List(at, n), lo, hi, q.idx1);
      ListedExact(p, slots, symbols, List(at, n), lo, hi, q.idx2);
      CostIs(p, slots[q.idx1], symbols, q.idx1);
      CostIs(p, slots[q.idx2], symbols, q.idx2);
      CostBounds(p, slots[q.idx1].hist, slots[q.idx2].hist, slots[q.idx1].size, slots[q.idx2].size);
    }

    /** One merge. */
    method CombineStep(at: nat, n: nat, lo: nat, hi: nat, maxNumPairs: nat, ghost maxClusters: nat, ghost full: bool,
                       ghost log: Log) returns (n': nat, ghost log': Log)
      requires Valid() && at + n <= |clusters| && Lists(List(at, n), symbols, lo, hi) && n >= 2
      requires p.Queue(pairs, numPairs, List(at, n), slots) && 0 < numPairs <= maxNumPairs <= |pairs|
      requires |pairs| > 0 && (pairs[0].costDiff < 0.0 || n > maxClusters)
      requires full ==> PairsOf(n) <= maxNumPairs && p.Complete(pairs, numPairs, List(at, n), slots)
      requires p.Greedy(log, maxClusters, full) && log.EndsIn(Stage(List(at, n), slots))
      requires p.FrontOf(log, |log.merged|, Stage(List(at, n), slots), pairs[0].costDiff)
      modifies this
      ensures Valid() && n' == n - 1 && Lists(List(at, n'), symbols, lo, hi)
      ensures forall c :: c in List(at, n') ==> c in old(List(at, n))
      ensures p.Queue(pairs, numPairs, List(at, n'), slots) && numPairs <= maxNumPairs <= |pairs|
              && (n' >= 2 ==> numPairs > 0)
      ensures |slots| == |old(slots)|
              && forall c :: 0 <= c < |slots| && c !in old(List(at, n)) ==> slots[c] == old(slots)[c]
      ensures full ==> p.Complete(pairs, numPairs, List(at, n'), slots)
      ensures p.Greedy(log', maxClusters, full) && log'.EndsIn(Stage(List(at, n'), slots))
      ensures n' >= 2 ==> |pairs| > 0 && p.FrontOf(log', |log'.merged|, Stage(List(at, n'), slots), pairs[0].costDiff)
      ensures |log'.merged| == |log.merged| + 1 && Extends(log, log')
      ensures old(pairs)[0].costDiff >= 0.0 ==> p.Loses(log', |log.merged|)
      ensures clusters[..at] == old(clusters)[..at] && clusters[at + n..] == old(clusters)[at + n..]
              && |pairs| == |old(pairs)|
      ensures |symbols| == |old(symbols)|
              && forall i :: 0 <= i < |symbols| && !(lo <= i < hi) ==> symbols[i] == old(symbols)[i]
    {
      hide Lists, Problem.AllExact, Problem.Queue, Problem.Complete, Problem.Progress, Problem.Joins, MergedDone,
        PairsOf,
        Problem.Greedy, Problem.FrontOf, Problem.NoWorse, Problem.Step, Bag, Kept, Problem.Loses, List;
      ghost var list, slots0, orig, n0 := List(at, n), slots, pairs, numPairs;
      ListLength(at, n);
      ListLength(at, n - 1);
      ghost var x := pairs[0].costDiff;
      var a, b := MergeBest(at, n, lo, hi);
      log' := Log(log.stages + [Stage(List(at, n - 1), slots)], log.merged + [(a, b)]);
      NextStep(p, log, log', orig, n0, list, slots0, maxClusters, full);
      DropPairs(a, b, list, slots0, List(at, n - 1));
      PairsMonotone(n - 1, n);
      if full { Dropped(p, orig, n0, pairs, numPairs, list, slots0, List(at, n - 1), slots, a, b); }
      PushMerged(a, at, n - 1, lo, hi, maxNumPairs, full);
      n' := n - 1;
      if n' >= 2 { FrontNow(p, pairs, log', Stage(List(at, n'), slots), a); }
    }

    /** The listed cluster where input i costs least, beginning with the cluster start. */
    method Cheapest(i: nat, start: nat, n: nat) returns (best: nat)
      requires p.Valid() && i < |p.ins| && n <= |clusters| && p.Sized(slots, List(0, n)) && start in List(0, n)
      ensures p.IsCheapest(slots, List(0, n), i, start, best)
    {
      hide Add, Problem.Distance, Problem.MoveCost, Problem.FirstAt;
      ghost var at := 0;
      forall c | c in List(0, n)
        ensures p.Distance(i, slots[c]) == p.MoveCost(i, slots[c])
      {
        DistanceIs(p, i, slots[c]);
      }
      best := start;
      var bestBits := p.Distance(i, slots[best]);
      for j := 0 to n
        invariant best in List(0, n) && bestBits == p.Distance(i, slots[best]) <= p.Distance(i, slots[start])
        invariant forall c :: c in List(0, n) && c in List(0, n)[..j] ==> bestBits <= p.Distance(i, slots[c])
        invariant best == start || bestBits < p.Distance(i, slots[start])
        invariant best == start || p.FirstAt(slots, List(0, n), i, at, best)
      {
        ListAt(0, n, j);
        var bits := p.Distance(i, slots[clusters[j]]);
        if bits < bestBits {
          FirstNow(p, slots, List(0, n), i, j, bestBits);
          at := j;
          best, bestBits := clusters[j], bits;
        }
      }
      assert List(0, n)[..n] == List(0, n);
    }

    /** Moves every input to the cluster where it costs least. */
    method Reassign(n: nat)
      requires p.Valid() && n <= |clusters| && |symbols| == |p.ins| && p.Sized(slots, List(0, n))
               && Covers(List(0, n), symbols)
      modifies this`symbols
      ensures |symbols| == |p.ins| && Covers(List(0, n), symbols)
      ensures forall i :: 0 <= i < |symbols| ==>
                p.IsCheapest(slots, List(0, n), i, Preferred(old(symbols), symbols, i), symbols[i])
    {
      hide Problem.IsCheapest, Problem.Sized;
      var i := 0;
      while i < |symbols|
        invariant i <= |symbols| == |p.ins| && Covers(List(0, n), symbols)
        invariant forall j :: 0 <= j < i ==>
                    p.IsCheapest(slots, List(0, n), j, Preferred(old(symbols), symbols, j), symbols[j])
        invariant |symbols| == |old(symbols)| && (i == 0 ==> symbols == old(symbols))
      {
        var best := Cheapest(i, if i == 0 then symbols[0] else symbols[i - 1], n);
        CheapestListed(p, slots, List(0, n), i, Preferred(old(symbols), symbols, i), best);
        ghost var was := symbols;
        symbols := symbols[i := best];
        forall j | 0 <= j < i + 1
          ensures p.IsCheapest(slots, List(0, n), j, Preferred(old(symbols), symbols, j), symbols[j])
        {
          assert Preferred(old(symbols), symbols, j) == Preferred(old(symbols), was, j);
        }
        i := i + 1;
      }
    }

    /** Recomputes the listed clusters from the inputs. */
    method Recompute(n: nat)
      requires p.Valid() && n <= |clusters| && |symbols| == |p.ins| == |slots| && Covers(List(0, n), symbols)
               && Sizes(List(0, n), |slots|)
      modifies this`slots
      ensures |slots| == |p.ins| && forall c :: c in List(0, n) ==> p.Summed(slots[c], symbols, c)
    {
      hide Add, Total, List;
      ListWhole(n);
      for k := 0 to n
        invariant |slots| == |p.ins|
                  && forall c :: c in List(0, n) && c in List(0, n)[..k] ==>
                     slots[c].hist == Zeros(p.alphabet) && slots[c].total == 0
      {
        ListAt(0, n, k);
        slots := slots[clusters[k] := slots[clusters[k]].(hist := Zeros(p.alphabet), total := 0)];
      }
      ZeroTotal(p.alphabet);
      for i := 0 to |p.ins|
        invariant |slots| == |p.ins| && forall c :: c in List(0, n) ==> p.Partial(slots[c], symbols, c, i)
      {
        var c := symbols[i];
        TotalAdd(slots[c].hist, p.ins[i]);
        slots := slots[c := slots[c].(hist := Add(slots[c].hist, p.ins[i]), total := slots[c].total + Total(p.ins[i]))];
      }
      for k := 0 to n
        invariant |slots| == |p.ins| && forall c :: c in List(0, n) ==> p.Partial(slots[c], symbols, c, |p.ins|)
        invariant forall c :: c in List(0, n) && c in List(0, n)[..k] ==> slots[c].bitCost == p.cost(slots[c].hist)
      {
        ListAt(0, n, k);
        slots := slots[clusters[k] := slots[clusters[k]].(bitCost := p.cost(slots[clusters[k]].hist))];
      }
    }

    lemma ListWhole(n: nat)
      requires n <= |clusters|
      ensures List(0, n)[..n] == List(0, n) && |List(0, n)| == n
    {
    }

    /** Numbers the clusters in the order of their first use. */
    method NumberFirstUses() returns (newIndex: seq<int>, next: nat, ghost when: seq<nat>)
      requires Below(symbols, |symbols|)
      ensures Numbering(symbols, |symbols|, newIndex, when) && next == |when|
    {
      newIndex := seq(|symbols|, _ => -1);
      next, when := 0, [];
      for i := 0 to |symbols|
        invariant Numbering(symbols, i, newIndex, when) && next == |when|
      {
        var c := symbols[i];
        if newIndex[c] == -1 {
          NumberNext(symbols, i, newIndex, when);
          newIndex := newIndex[c := next];
          next := next + 1;
          when := when + [i];
        } else {
          NumberSame(symbols, i, newIndex, when);
        }
      }
    }

    /** Moves the clusters in use to consecutive slots. */
    method Reindex() returns (next: nat)
      requires Below(symbols, |symbols|) && |slots| == |symbols|
      modifies this`slots, this`symbols
      ensures |symbols| == |old(symbols)| && |slots| == |old(slots)| && next <= |slots|
      ensures FirstUse(symbols, next) && Renamed(old(symbols), symbols)
      ensures forall i :: 0 <= i < |symbols| ==> slots[symbols[i]] == old(slots)[old(symbols)[i]]
    {
      hide Numbering, FirstUse, Renamed, Collected;
      ghost var when;
      var newIndex;
      newIndex, next, when := NumberFirstUses();
      ghost var s, was := symbols, slots;
      NumberingLengths(s, |s|, newIndex, when);
      var tmp := Collect(newIndex, when);
      NumberedOk(s, newIndex, when, symbols);
      CollectedAll(s, when, tmp, slots);
      StoreBack(tmp);
      forall k | 0 <= k < |symbols|
        ensures symbols[k] < |slots| && s[k] < |was| && slots[symbols[k]] == was[s[k]]
      {
        NumberedAt(s, newIndex, when, k);
      }
    }

    /** Renames the clusters and collects their slots in the order of the new names. */
    method Collect(newIndex: seq<int>, ghost when: seq<nat>) returns (tmp: seq<Slot>)
      requires Numbering(symbols, |symbols|, newIndex, when) && |slots| == |symbols|
      modifies this`symbols
      ensures |symbols| == |old(symbols)| && |newIndex| == |symbols| && Below(old(symbols), |symbols|)
      ensures forall j :: 0 <= j < |symbols| ==> symbols[j] == newIndex[old(symbols)[j]]
      ensures Collected(old(symbols), when, tmp, slots, |symbols|)
    {
      hide Numbering, Collected;
      ghost var s := symbols;
      NumberingLengths(s, |s|, newIndex, when);
      tmp := [];
      CollectedNone(s, when, slots);
      var i := 0;
      while i < |symbols|
        invariant i <= |symbols| == |s|
        invariant forall j :: 0 <= j < i ==> symbols[j] == newIndex[s[j]]
        invariant forall j :: i <= j < |s| ==> symbols[j] == s[j]
        invariant Collected(s, when, tmp, slots, i)
      {
        CollectNext(s, newIndex, when, tmp, slots, i);
        if newIndex[symbols[i]] == |tmp| { tmp := tmp + [slots[symbols[i]]]; }
        symbols := symbols[i := newIndex[symbols[i]]];
        i := i + 1;
      }
    }

    method StoreBack(tmp: seq<Slot>)
      requires |tmp| <= |slots|
      modifies this`slots
      ensures |slots| == |old(slots)| && forall u :: 0 <= u < |tmp| ==> slots[u] == tmp[u]
    {
      for v := 0 to |tmp|
        invariant |slots| == |old(slots)| && forall u :: 0 <= u < v ==> slots[u] == tmp[u]
      {
        slots := slots[v := tmp[v]];
      }
    }

    /** Every input starts as a cluster of its own. */
    method Initialize()
      requires p.Valid() && |slots| == |symbols| == |clusters| == |p.ins|
      modifies this`slots, this`symbols
      ensures Valid() && |slots| == |symbols| == |p.ins|
      ensures forall i :: 0 <= i < |symbols| ==> symbols[i] == i && slots[i] == p.Own(i)
    {
      hide Total, Sum, Members;
      for i := 0 to |p.ins|
        invariant |slots| == |symbols| == |clusters| == |p.ins|
        invariant forall k :: 0 <= k < i ==>
                  symbols[k] == k && slots[k] == Slot(p.ins[k], p.cost(p.ins[k]), Total(p.ins[k]), 1)
      {
        slots := slots[i := Slot(p.ins[i], p.cost(p.ins[i]), Total(p.ins[i]), 1)];
        symbols := symbols[i := i];
      }
      forall c | 0 <= c < |p.ins|
        ensures p.Exact(slots[c], symbols, c)
      {
        SumIdentity(p.ins, p.alphabet, symbols, c, |p.ins|);
      }
    }

    /** Combines the inputs in batches. */
    method CombineBatches(maxHistograms: nat) returns (n: nat, ghost logs: seq<Log>)
      requires Valid() && (forall i :: 0 <= i < |symbols| ==> symbols[i] == i) && maxHistograms >= 1
               && |pairs| >= PAIRS_CAPACITY
      requires |slots| == |p.ins| && forall i :: 0 <= i < |p.ins| ==> slots[i] == p.Own(i)
      modifies this
      ensures Valid() && n <= |clusters| && Lists(List(0, n), symbols, 0, |p.ins|) && (p.ins != [] ==> n > 0)
      ensures p.Batches(logs, |p.ins|, maxHistograms) && List(0, n) == Results(logs)
    {
      hide Problem.AllExact, Problem.Queue, Lists;
      ProblemValid(p, slots, symbols);
      hide Problem.Batch, Results, Problem.Batches;
      NoBatches(p, maxHistograms);
      n, logs := 0, [];
      var i := 0;
      NoList(symbols);
      ResultsNone();
      while i < |p.ins|
        invariant Valid() && n <= i <= |p.ins| == |symbols| && (i > 0 ==> n > 0) && |pairs| >= PAIRS_CAPACITY
        invariant Lists(List(0, n), symbols, 0, i) && Sizes(List(0, n), i)
        invariant |slots| == |p.ins| && forall k :: i <= k < |symbols| ==> symbols[k] == k && slots[k] == p.Own(k)
        invariant List(0, n) == Results(logs) && (i < |p.ins| ==> i == MAX_INPUT_HISTOGRAMS * |logs|)
        invariant p.Batches(logs, i, maxHistograms)
      {
        var m := if |p.ins| - i <= MAX_INPUT_HISTOGRAMS then |p.ins| - i else MAX_INPUT_HISTOGRAMS;
        ghost var log;
        n, log := CombineBatch(n, i, m, maxHistograms);
        ResultsNext(logs, log);
        BatchesNext(p, logs, log, i, m, maxHistograms);
        logs := logs + [log];
        i := i + m;
      }
    }

    /** One batch; its clusters join the list. */
    method CombineBatch(n: nat, i: nat, m: nat, maxHistograms: nat) returns (n': nat, ghost log: Log)
      requires Valid() && n <= i && i + m <= |p.ins| == |symbols| && m > 0 && |pairs| >= PAIRS_CAPACITY
               && maxHistograms >= 1
      requires Lists(List(0, n), symbols, 0, i) && Sizes(List(0, n), i)
      requires forall k :: i <= k < |symbols| ==> symbols[k] == k && slots[k] == p.Own(k)
      requires m <= MAX_INPUT_HISTOGRAMS && |slots| == |p.ins|
      modifies this
      ensures Valid() && 0 < n' <= i + m && |symbols| == |old(symbols)| && |pairs| >= PAIRS_CAPACITY
      ensures p.Batch(log, i, m, maxHistograms) && |slots| == |p.ins|
              && List(0, n') == old(List(0, n)) + log.stages[|log.stages| - 1].list
      ensures Lists(List(0, n'), symbols, 0, i + m) && Sizes(List(0, n'), i + m)
      ensures forall k :: i + m <= k < |symbols| ==> symbols[k] == k && slots[k] == p.Own(k)
    {
      hide Problem.AllExact, Problem.Queue, Lists, Problem.Greedy, Problem.Ends, PairsOf;
      ghost var list := List(0, n);
      PairsMonotone(m, MAX_INPUT_HISTOGRAMS);
      PairsFormula(MAX_INPUT_HISTOGRAMS);
      StartBatch(n, i, m);
      ghost var batch := List(n, m);
      BatchListed(list, batch, symbols, i, m);
      var k: nat;
      k, log := Combine(n, m, i, i + m, maxHistograms, PAIRS_CAPACITY);
      BatchAbove(batch, List(n, k), symbols, i, m);
      ListsSame(list, old(symbols), symbols, i, m);
      ListsJoin(list, List(n, k), symbols, 0, i, i + m);
      ListParts(n, k, old(clusters));
      SizesJoined(list, List(n, k), i, m);
      n' := n + k;
    }

    lemma ListParts(n: nat, k: nat, was: seq<nat>)
      requires n + k <= |clusters| && n <= |was| && clusters[..n] == was[..n]
      ensures List(0, n + k) == was[0..n] + List(n, k)
    {
    }

    /** The batch is listed behind the clusters found so far. */
    method StartBatch(n: nat, i: nat, m: nat)
      requires n + m <= |clusters|
      modifies this`clusters
      ensures |clusters| == |old(clusters)| && List(0, n) == old(List(0, n)) && |List(n, m)| == m
              && forall j :: 0 <= j < m ==> List(n, m)[j] == i + j
    {
      for j := 0 to m
        invariant |clusters| == |old(clusters)| && clusters[..n] == old(clusters)[..n]
                  && forall k :: n <= k < n + j ==> clusters[k] == i + (k - n)
      {
        clusters := clusters[n + j := i + j];
      }
    }

    /** Moves the inputs to their cheapest clusters, and recomputes these. */
    method Remap(n: nat, ghost before: nat)
      requires p.Valid() && n <= |clusters| && |symbols| == |p.ins| == |slots| && p.Sized(slots, List(0, n))
               && Covers(List(0, n), symbols) && Sizes(List(0, n), |slots|)
      requires symbols == [] || before == symbols[0]
      modifies this`symbols, this`slots
      ensures |symbols| == |p.ins| == |slots| && Covers(List(0, n), symbols)
      ensures forall i :: 0 <= i < |symbols| ==>
                p.IsCheapest(old(slots), List(0, n), i, Preferred([before], symbols, i), symbols[i])
      ensures forall i :: 0 <= i < |symbols| ==> p.Summed(slots[symbols[i]], symbols, symbols[i])
    {
      hide Problem.IsCheapest, Problem.Sized, Problem.Summed, List;
      ghost var given := symbols;
      Reassign(n);
      forall i | 0 <= i < |symbols|
        ensures Preferred([before], symbols, i) == Preferred(given, symbols, i)
      {
      }
      Recompute(n);
    }

    /** Clusters the inputs into at most maxHistograms groups. Each output is the sum of the inputs mapped
        to it, and the outputs are numbered in the order of their first use. */
    method ClusterHistograms(maxHistograms: nat)
      returns (n: nat, ghost logs: seq<Log>, ghost log: Log, ghost choice: seq<nat>, ghost before: nat)
      requires p.Valid() && |slots| == |symbols| == |clusters| == |p.ins| && maxHistograms >= 1
      modifies this
      ensures |symbols| == |slots| == |p.ins| && n <= maxHistograms && FirstUse(symbols, n) && n <= |slots|
      ensures forall i :: 0 <= i < |symbols| ==> p.Summed(slots[symbols[i]], symbols, symbols[i])
      ensures p.Batches(logs, |p.ins|, maxHistograms) && |log.stages| > 0 && log.stages[0].list == Results(logs)
      ensures var k := |log.stages[0].list|;
              && p.Greedy(log, maxHistograms, PairsOf(k) <= PairLimit(k))
              && (PairsOf(k) <= PairLimit(k) ==> p.Ends(log, maxHistograms))
      ensures |choice| == |p.ins| && Renamed(choice, symbols)
      ensures var s := log.stages[|log.stages| - 1];
              forall i :: 0 <= i < |choice| ==>
                p.IsCheapest(s.slots, s.list, i, Preferred([before], choice, i), choice[i])
    {
      hide Problem.AllExact, Problem.Queue, Lists, Problem.Summed, Problem.IsCheapest, List, FirstUse, Renamed,
        Problem.Greedy, Problem.Ends, Problem.Batches, Results, PairsOf, PairLimit;
      if |pairs| < PAIRS_CAPACITY + 1 { pairs := seq(PAIRS_CAPACITY + 1, _ => Pair(0, 0, 0.0, 0.0)); }
      Initialize();
      var k: nat;
      k, logs := CombineBatches(maxHistograms);
      ListWhole(k);
      PairLimitPositive(k);
      var maxNumPairs := PairLimit(k);
      if |pairs| < maxNumPairs + 1 { pairs := seq(maxNumPairs + 1, _ => Pair(0, 0, 0.0, 0.0)); }
      k, log := Combine(0, k, 0, |p.ins|, maxHistograms, maxNumPairs);
      ProblemValid(p, slots, symbols);
      ListedSized(p, slots, symbols, List(0, k));
      before := if symbols == [] then 0 else symbols[0];
      Remap(k, before);
      ghost var s, was := symbols, slots;
      choice := symbols;
      n := Reindex();
      ListWhole(k);
      FewNames(List(0, k), s, symbols, n);
      forall i | 0 <= i < |symbols|
        ensures symbols[i] < |slots| && p.Summed(slots[symbols[i]], symbols, symbols[i])
      {
        SummedRenamed(p, was[s[i]], s, symbols, i);
        NameBelow(symbols, n, i);
      }
    }
  }

  const MAX_INPUT_HISTOGRAMS := 64
  const PAIRS_CAPACITY := 2048

  /** At most 64 pairs for each cluster. */
  function PairLimit(n: nat): (r: nat)
    ensures n >= 2 ==> r > 0
  {
    if 64 * n <= (n / 2) * n then 64 * n else PairsPositive(n); (n / 2) * n
  }

  lemma PairLimitPositive(n: nat)
    ensures n >= 2 ==> PairLimit(n) > 0
  {
  }

  lemma NoBatches(p: Problem, maxClusters: nat)
    ensures p.Batches([], 0, maxClusters)
  {
  }

  lemma BatchesNext(p: Problem, logs: seq<Log>, l: Log, i: nat, m: nat, maxClusters: nat)
    requires p.Batches(logs, i, maxClusters) && i == MAX_INPUT_HISTOGRAMS * |logs| < |p.ins|
             && p.Batch(l, i, m, maxClusters)
    requires m == Min(MAX_INPUT_HISTOGRAMS, |p.ins| - i)
    ensures p.Batches(logs + [l], i + m, maxClusters) && l.stages != []
    ensures i + m < |p.ins| ==> i + m == MAX_INPUT_HISTOGRAMS * |logs + [l]|
  {
    hide Problem.Greedy;
    assert l.stages != [];
    hide Problem.Batch;
  }

  lemma ResultsNone()
    ensures Results([]) == []
  {
  }

  lemma ResultsNext(logs: seq<Log>, l: Log)
    requires l.stages != []
    ensures Results(logs + [l]) == Results(logs) + l.stages[|l.stages| - 1].list
  {
    assert (logs + [l])[..|logs|] == logs;
  }

  /** The queue of the second pass can hold the pairs of up to 129 clusters. */
  lemma PairsOfAllFit(n: nat)
    ensures PairsOf(n) <= PairLimit(n) <==> n <= 129
  {
    hide PairsOf;
    PairsFormula(n);
    HalfTimes(n);
    if n <= 129 { LessTimes'(n - 1, 128, n); } else { LessTimes'(129, n - 1, n); }
  }

  lemma HalfTimes(n: nat)
    ensures n * (n - 1) <= 2 * ((n / 2) * n) <= n * n
  {
    if n % 2 == 0 { assert n == 2 * (n / 2); } else { assert n == 2 * (n / 2) + 1; }
  }

  lemma LessTimes'(a: int, b: int, n: nat)
    requires a <= b
    ensures n * a <= n * b
  {
  }

  lemma PairsPositive(n: nat)
    ensures n >= 2 ==> (n / 2) * n > 0
  {
  }

  lemma NoList(s: seq<nat>)
    ensures Lists([], s, 0, 0)
  {
  }

  lemma BatchListed(list: seq<nat>, batch: seq<nat>, s: seq<nat>, i: nat, m: nat)
    requires Lists(list, s, 0, i) && Sizes(list, i) && i + m <= |s| && (forall k :: i <= k < |s| ==> s[k] == k)
    requires |batch| == m && forall j :: 0 <= j < m ==> batch[j] == i + j
    ensures Lists(batch, s, i, i + m)
  {
    forall k | i <= k < i + m ensures s[k] in batch { assert batch[k - i] == s[k]; }
    forall j | 0 <= j < m ensures batch[j] in s[i..i + m] { assert s[i..i + m][j] == batch[j]; }
    forall k | 0 <= k < |s| && !(i <= k < i + m) ensures s[k] !in batch {
      assert k < i ==> s[k] in list;
    }
  }

  lemma SizesJoined(l: seq<nat>, m: seq<nat>, i: nat, k: nat)
    requires Sizes(l, i) && forall c :: c in m ==> c < i + k
    ensures Sizes(l + m, i + k)
  {
  }

  lemma BatchAbove(batch: seq<nat>, list: seq<nat>, t: seq<nat>, i: nat, m: nat)
    requires |batch| == m && (forall j :: 0 <= j < m ==> batch[j] == i + j) && (forall c :: c in list ==> c in batch)
             && Lists(list, t, i, i + m)
    ensures (forall k :: i <= k < i + m ==> t[k] >= i) && forall c :: c in list ==> c < i + m
  {
    assert forall c :: c in batch ==> i <= c < i + m;
  }

  /** Changes of a later range of inputs to clusters outside the list. */
  lemma ListsSame(list: seq<nat>, s: seq<nat>, t: seq<nat>, i: nat, m: nat)
    requires Lists(list, s, 0, i) && Sizes(list, i) && |s| == |t| && i + m <= |s|
             && (forall k :: 0 <= k < |s| && !(i <= k < i + m) ==> s[k] == t[k])
    requires forall k :: i <= k < i + m ==> t[k] >= i
    ensures Lists(list, t, 0, i)
  {
    assert s[0..i] == t[0..i];
    forall k | 0 <= k < |t| && !(0 <= k < i) ensures t[k] !in list {
      assert i + m <= k ==> s[k] !in list;
    }
  }

  lemma ListedSized(p: Problem, slots: seq<Slot>, symbols: seq<nat>, list: seq<nat>)
    requires p.AllExact(slots, symbols) && Lists(list, symbols, 0, |symbols|)
    ensures p.Sized(slots, list) && Covers(list, symbols) && Sizes(list, |slots|)
  {
    hide Lists, Problem.AllExact, Sum;
    forall c | c in list
      ensures c < |slots| && |slots[c].hist| == p.alphabet
    {
      ListedExact(p, slots, symbols, list, 0, |symbols|, c);
      ProblemValid(p, slots, symbols);
    }
    ListCovers(list, symbols);
  }

  lemma ListCovers(list: seq<nat>, symbols: seq<nat>)
    requires Lists(list, symbols, 0, |symbols|)
    ensures Covers(list, symbols)
  {
  }

  lemma SummedRenamed(p: Problem, slot: Slot, s: seq<nat>, t: seq<nat>, i: nat)
    requires p.Valid() && |s| == |t| == |p.ins| && Renamed(s, t) && i < |s| && p.Summed(slot, s, s[i])
    ensures p.Summed(slot, t, t[i])
  {
    hide Sum, Total;
    SumRenamed(p.ins, p.alphabet, s, s[i], t, t[i], |p.ins|);
  }

  lemma NameBelow(t: seq<nat>, n: nat, i: nat)
    requires FirstUse(t, n) && i < |t|
    ensures t[i] < n
  {
  }

  /** There are no more names than listed clusters. */
  lemma FewNames(list: seq<nat>, s: seq<nat>, t: seq<nat>, n: nat)
    requires Covers(list, s) && FirstUse(t, n) && Renamed(s, t)
    ensures n <= |list|
  {
    var at := Uses(t, n);
    var g := seq(n, v requires 0 <= v < n => s[at[v]]);
    forall u, v | 0 <= u < v < n
      ensures g[u] != g[v]
    {
      assert t[at[u]] != t[at[v]];
    }
    Pigeonhole(g, list);
  }

  /** For each name an input that has it. */
  lemma {:induction false} Uses(t: seq<nat>, n: nat) returns (at: seq<nat>)
    requires forall v :: 0 <= v < n ==> v in t
    ensures |at| == n && forall v :: 0 <= v < n ==> at[v] < |t| && t[at[v]] == v
  {
    at := [];
    if n > 0 {
      at := Uses(t, n - 1);
      assert n - 1 in t;
      var i :| 0 <= i < |t| && t[i] == n - 1;
      at := at + [i];
    }
  }

  lemma {:induction false} Pigeonhole(g: seq<nat>, list: seq<nat>)
    requires (forall u, v :: 0 <= u < v < |g| ==> g[u] != g[v]) && forall v :: 0 <= v < |g| ==> g[v] in list
    ensures |g| <= |list|
    decreases |g|
  {
    if g != [] {
      var n := |g| - 1;
      var k :| 0 <= k < |list| && list[k] == g[n];
      var rest := list[..k] + list[k + 1..];
      forall v | 0 <= v < n ensures g[v] in rest {
        var j :| 0 <= j < |list| && list[j] == g[v];
        assert rest[if j < k then j else j - 1] == g[v];
      }
      Pigeonhole(g[..n], rest);
    }
  }

  lemma CollectedNone(s: seq<nat>, when: seq<nat>, slots: seq<Slot>)
    requires |slots| == |s| && Below(s, |s|) && forall v :: 0 <= v < |when| ==> when[v] < |s|
    ensures Collected(s, when, [], slots, 0)
  {
  }

  ghost predicate Below(s: seq<nat>, n: nat) { forall i :: 0 <= i < |s| ==> s[i] < n }

  /** The clusters of the first i inputs are numbered in the order of their first use; when[v] is the
      input at which number v is given. */
  ghost predicate Numbering(s: seq<nat>, i: nat, newIndex: seq<int>, when: seq<nat>) {
    && |newIndex| == |s| && i <= |s| && Below(s, |s|)
    && (forall v :: 0 <= v < |when| ==> when[v] < i && newIndex[s[when[v]]] == v)
    && (forall u, v :: 0 <= u < v < |when| ==> when[u] < when[v])
    && (forall j :: 0 <= j < i ==> 0 <= newIndex[s[j]] < |when| && when[newIndex[s[j]]] <= j)
    && (forall c :: 0 <= c < |newIndex| ==>
       newIndex[c] == -1 || (0 <= newIndex[c] < |when| && s[when[newIndex[c]]] == c))
  }

  lemma NumberNext(s: seq<nat>, i: nat, newIndex: seq<int>, when: seq<nat>)
    requires Numbering(s, i, newIndex, when) && i < |s| && newIndex[s[i]] == -1
    ensures Numbering(s, i + 1, newIndex[s[i] := |when|], when + [i])
  {
  }

  lemma NumberSame(s: seq<nat>, i: nat, newIndex: seq<int>, when: seq<nat>)
    requires Numbering(s, i, newIndex, when) && i < |s| && newIndex[s[i]] != -1
    ensures Numbering(s, i + 1, newIndex, when)
  {
  }

  lemma NumberingLengths(s: seq<nat>, i: nat, newIndex: seq<int>, when: seq<nat>)
    requires Numbering(s, i, newIndex, when)
    ensures |newIndex| == |s| && |when| <= i && (forall v :: 0 <= v < |when| ==> when[v] < |s|)
    ensures Below(s, |s|) && forall j :: 0 <= j < i ==> 0 <= newIndex[s[j]] < |when|
  {
    Increasing(when, i);
  }

  /** An increasing sequence of numbers below n has at most n members. */
  lemma {:induction false} Increasing(when: seq<nat>, n: nat)
    requires (forall v :: 0 <= v < |when| ==> when[v] < n) && forall u, v :: 0 <= u < v < |when| ==> when[u] < when[v]
    ensures |when| <= n
  {
    if when != [] {
      Increasing(when[..|when| - 1], when[|when| - 1]);
    }
  }

  /** tmp holds the slots whose numbers were given before input i. */
  ghost predicate Collected(s: seq<nat>, when: seq<nat>, tmp: seq<Slot>, slots: seq<Slot>, i: nat) {
    && |tmp| <= |when| && |slots| == |s| && Below(s, |s|) && (forall v :: 0 <= v < |when| ==> when[v] < |s|)
    && (forall v :: 0 <= v < |tmp| ==> when[v] < i && tmp[v] == slots[s[when[v]]])
    && (forall v :: |tmp| <= v < |when| ==> when[v] >= i)
  }

  lemma CollectNext(s: seq<nat>, newIndex: seq<int>, when: seq<nat>, tmp: seq<Slot>, slots: seq<Slot>, i: nat)
    requires Numbering(s, |s|, newIndex, when) && Collected(s, when, tmp, slots, i) && i < |s|
    ensures newIndex[s[i]] == |tmp| ==> Collected(s, when, tmp + [slots[s[i]]], slots, i + 1)
    ensures newIndex[s[i]] != |tmp| ==> Collected(s, when, tmp, slots, i + 1)
  {
    var v := newIndex[s[i]];
    assert 0 <= v < |when| && when[v] <= i;
    assert |tmp| < |when| && when[|tmp|] == i ==> newIndex[s[when[|tmp|]]] == |tmp|;
  }

  lemma CollectedAll(s: seq<nat>, when: seq<nat>, tmp: seq<Slot>, slots: seq<Slot>)
    requires Collected(s, when, tmp, slots, |s|)
    ensures |tmp| == |when| && forall v :: 0 <= v < |tmp| ==> tmp[v] == slots[s[when[v]]]
  {
    if |tmp| < |when| { LateNumber(s, when, tmp, slots, |s|, |tmp|); }
  }

  lemma LateNumber(s: seq<nat>, when: seq<nat>, tmp: seq<Slot>, slots: seq<Slot>, i: nat, v: nat)
    requires Collected(s, when, tmp, slots, i) && |tmp| <= v < |when|
    ensures i <= when[v] < |s|
  {
  }

  lemma NumberedAt(s: seq<nat>, newIndex: seq<int>, when: seq<nat>, k: nat)
    requires Numbering(s, |s|, newIndex, when) && k < |s|
    ensures var v := newIndex[s[k]]; 0 <= v < |when| && when[v] < |s| && s[when[v]] == s[k]
  {
  }

  /** The numbers 0 .. n - 1 are all used, and each is used only after those below it. */
  ghost predicate FirstUse(t: seq<nat>, n: nat) {
    && Below(t, n) && (forall v :: 0 <= v < n ==> v in t)
    && forall i, v :: 0 <= i < |t| && 0 <= v < t[i] ==> v in t[..i]
  }

  /** Two inputs are together after the renaming exactly when they were before. */
  ghost predicate Renamed(s: seq<nat>, t: seq<nat>) {
    |s| == |t| && forall i, j :: 0 <= i < |s| && 0 <= j < |s| ==> (s[i] == s[j] <==> t[i] == t[j])
  }

  lemma NumberedOk(s: seq<nat>, newIndex: seq<int>, when: seq<nat>, t: seq<nat>)
    requires Numbering(s, |s|, newIndex, when) && |t| == |s| && forall j :: 0 <= j < |s| ==> t[j] == newIndex[s[j]]
    ensures FirstUse(t, |when|) && Renamed(s, t)
  {
    forall v | 0 <= v < |when|
      ensures v in t
    {
      assert t[when[v]] == v;
    }
    forall i, v | 0 <= i < |t| && 0 <= v < t[i]
      ensures v in t[..i]
    {
      assert when[v] < when[t[i]] <= i;
      assert t[..i][when[v]] == v;
    }
    forall i, j | 0 <= i < |s| && 0 <= j < |s|
      ensures s[i] == s[j] <==> t[i] == t[j]
    {
      assert s[when[newIndex[s[i]]]] == s[i] && s[when[newIndex[s[j]]]] == s[j];
    }
  }

  lemma {:induction false} ZeroTotal(n: nat)
    ensures Total(Zeros(n)) == 0
  {
    if n > 0 {
      assert Zeros(n)[1..] == Zeros(n - 1);
      ZeroTotal(n - 1);
    }
  }

  /** Every input is mapped to a listed cluster. */
  ghost predicate Covers(list: seq<nat>, symbols: seq<nat>) { forall i :: 0 <= i < |symbols| ==> symbols[i] in list }

  ghost predicate Sizes(list: seq<nat>, n: nat) { forall c :: c in list ==> c < n }

  lemma Apart(list: seq<nat>, symbols: seq<nat>, lo: nat, hi: nat, i: nat, j: nat)
    requires Lists(list, symbols, lo, hi) && i < j < |list|
    ensures list[i] != list[j]
  {
  }

  lemma ListsInside(list: seq<nat>, symbols: seq<nat>, lo: nat, hi: nat)
    requires Lists(list, symbols, lo, hi)
    ensures lo <= hi <= |symbols|
  {
  }

  lemma ListedNowhereElse(list: seq<nat>, symbols: seq<nat>, lo: nat, hi: nat, b: nat)
    requires Lists(list, symbols, lo, hi) && b in list
    ensures forall i :: 0 <= i < |symbols| && !(lo <= i < hi) ==> symbols[i] != b
  {
  }

  /** The pair names a or b. */
  predicate Meets(q: Pair, a: nat, b: nat) { q.idx1 == a || q.idx2 == a || q.idx1 == b || q.idx2 == b }

  /** The first n pairs without those that name a or b. */
  ghost function Kept(pairs: seq<Pair>, n: nat, a: nat, b: nat): seq<Pair>
    requires n <= |pairs|
  {
    if n == 0 then [] else Kept(pairs, n - 1, a, b) + if Meets(pairs[n - 1], a, b) then [] else [pairs[n - 1]]
  }

  lemma KeptNext(pairs: seq<Pair>, n: nat, a: nat, b: nat)
    requires n < |pairs|
    ensures Kept(pairs, n + 1, a, b) == Kept(pairs, n, a, b) + if Meets(pairs[n], a, b) then [] else [pairs[n]]
  {
  }

  /** Appending a pair, or putting it in front and the front behind, adds it to the queue. */
  lemma PutFront(pairs: seq<Pair>, n: nat, q: Pair)
    requires n < |pairs|
    ensures Bag(pairs[n := q], n + 1) == Bag(pairs, n) + multiset{q}
    ensures Bag(pairs[n := pairs[0]][0 := q], n + 1) == Bag(pairs, n) + multiset{q}
  {
    assert pairs[n := q][..n + 1] == pairs[..n] + [q];
    if n > 0 {
      assert pairs[..n] == [pairs[0]] + pairs[1..n];
      assert pairs[n := pairs[0]][0 := q][..n + 1] == [q] + pairs[1..n] + [pairs[0]];
    } else {
      assert pairs[0 := pairs[0]][0 := q][..1] == [q];
    }
  }

  /** The first n pairs are a queue of the kept ones among the first i of orig. */
  ghost predicate Part(p: Problem, pairs: seq<Pair>, n: nat, orig: seq<Pair>, i: nat, a: nat, b: nat, list: seq<nat>,
                       slots: seq<Slot>) {
    n <= |pairs| && i <= |orig| && p.Queue(pairs, n, list, slots)
      && Bag(pairs, n) == multiset(Kept(orig, i, a, b))
  }

  /** l' continues l. */
  ghost predicate Extends(l: Log, l': Log) { l.stages <= l'.stages && l.merged <= l'.merged }

  /** The merge of the front pair is a step. */
  lemma NextStep(p: Problem, l: Log, l': Log, pairs: seq<Pair>, n: nat, list: seq<nat>, slots: seq<Slot>,
                 maxClusters: nat,
                 full: bool)
    requires p.Greedy(l, maxClusters, full) && l.EndsIn(Stage(list, slots)) && p.Queue(pairs, n, list, slots) && n > 0
    requires |pairs| > 0 && (pairs[0].costDiff < 0.0 || |list| > maxClusters)
             && (full ==> p.Complete(pairs, n, list, slots))
    requires p.FrontOf(l, |l.merged|, Stage(list, slots), pairs[0].costDiff)
    requires |l'.stages| == |l.stages| + 1
             && l' == Log(l.stages + [l'.stages[|l.stages|]], l.merged + [pairs[0].Names()])
    requires p.Joins(Stage(list, slots), l'.stages[|l.stages|], pairs[0].idx1, pairs[0].idx2)
    ensures p.Greedy(l', maxClusters, full) && (pairs[0].costDiff >= 0.0 ==> p.Loses(l', |l.merged|))
  {
    hide Problem.Joins, Problem.AllCost, Problem.BestPair, Problem.FrontOf;
    if full {
      hide Problem.Queue, Problem.Complete;
      FrontIsBest(p, pairs, n, list, slots);
    }
    FrontCost(p, pairs, n, list, slots);
    hide Problem.Queue, Problem.Complete, Problem.Current, Problem.MergeCost;
    var m := |l.merged|;
    StepsStill(p, l, l', maxClusters, full);
    FrontSame(p, l, l', m, Stage(list, slots), pairs[0].costDiff);
  }

  lemma FrontSame(p: Problem, l: Log, l': Log, k: nat, s: Stage, x: real)
    requires k <= |l.merged| <= |l'.merged| && l.merged <= l'.merged && p.FrontOf(l, k, s, x)
    ensures p.FrontOf(l', k, s, x)
  {
  }

  lemma StepsStill(p: Problem, l: Log, l': Log, maxClusters: nat, full: bool)
    requires p.Greedy(l, maxClusters, full) && Extends(l, l') && |l'.stages| == |l'.merged| + 1
    ensures forall k :: 0 <= k < |l.merged| ==> p.Step(l', k, maxClusters, full)
  {
    hide Problem.AllCost, Problem.BestPair, Problem.FrontOf, Problem.MergeCost, Problem.Merge;
    forall k | 0 <= k < |l.merged|
      ensures p.Step(l', k, maxClusters, full)
    {
      assert p.Step(l, k, maxClusters, full);
      var x := p.MergeCost(l.stages[k].slots[l.merged[k].0], l.stages[k].slots[l.merged[k].1]);
      FrontSame(p, l, l', k, l.stages[k], x);
    }
  }

  lemma FrontCost(p: Problem, pairs: seq<Pair>, n: nat, list: seq<nat>, slots: seq<Slot>)
    requires p.Queue(pairs, n, list, slots) && n > 0
    ensures var q := pairs[0];
            && q.idx1 < q.idx2 < |slots| && |slots[q.idx1].hist| == |slots[q.idx2].hist|
            && q.costDiff == p.MergeCost(slots[q.idx1], slots[q.idx2])
  {
  }

  lemma FrontNow(p: Problem, pairs: seq<Pair>, l: Log, s: Stage, a: nat)
    requires l.merged != [] && l.merged[|l.merged| - 1].0 == a && |pairs| > 0
    requires forall c :: c in s.list && c != a ==> p.NoWorse(pairs, s.slots, a, c)
    ensures p.FrontOf(l, |l.merged|, s, pairs[0].costDiff)
  {
  }

  lemma NoSteps(p: Problem, l: Log, maxClusters: nat, full: bool)
    requires |l.stages| == 1 && l.merged == []
    ensures p.Greedy(l, maxClusters, full)
  {
  }

  lemma FrontFirst(p: Problem, pairs: seq<Pair>, slots: seq<Slot>, list: seq<nat>, l: Log)
    requires p.BestOf(pairs, slots, list, |list|, 0) && |pairs| > 0
    ensures p.FrontOf(l, 0, Stage(list, slots), pairs[0].costDiff)
  {
    forall a, b | a in list && b in list && a < b
      ensures p.CostsAtLeast(slots, a, b, pairs[0].costDiff)
    {
      var k :| 0 <= k < |list| && list[k] == a;
      var l :| 0 <= l < |list| && list[l] == b;
      if k < l {
        assert p.NoWorse(pairs, slots, list[k], list[l]);
      } else {
        assert p.NoWorse(pairs, slots, list[l], list[k]);
      }
    }
  }

  lemma LosesStill(p: Problem, l: Log, l': Log, k: nat)
    requires p.Loses(l, k) && Extends(l, l')
    ensures p.Loses(l', k)
  {
  }

  /** A complete queue whose front saves nothing. */
  lemma FrontSaves(p: Problem, pairs: seq<Pair>, n: nat, list: seq<nat>, slots: seq<Slot>)
    requires p.Queue(pairs, n, list, slots) && p.Complete(pairs, n, list, slots) && n > 0 && pairs[0].costDiff >= 0.0
    ensures p.AllCost(Stage(list, slots), 0.0)
  {
    hide Problem.Queue, Problem.Complete, Problem.BestPair;
    FrontIsBest(p, pairs, n, list, slots);
  }

  /** The cluster that is tried first: that of the input before, or at the beginning the one that input 0 has. */
  ghost function Preferred(was: seq<nat>, symbols: seq<nat>, i: nat): nat
    requires |was| > 0 && i <= |symbols|
  {
    if i == 0 then was[0] else symbols[i - 1]
  }

  lemma FirstNow(p: Problem, slots: seq<Slot>, list: seq<nat>, i: nat, j: nat, x: real)
    requires i < |p.ins| && Inputs(p.ins, p.alphabet) && p.Sized(slots, list) && j < |list| && list[j] in list
    requires p.MoveCost(i, slots[list[j]]) < x
    requires forall c :: c in list && c in list[..j] ==> x <= p.MoveCost(i, slots[c])
    ensures p.FirstAt(slots, list, i, j, list[j])
  {
    hide Problem.MoveCost;
    forall k | 0 <= k < j
      ensures list[k] in list && p.MoveCost(i, slots[list[k]]) > p.MoveCost(i, slots[list[j]])
    {
      assert list[..j][k] == list[k];
    }
  }

  lemma DistanceIs(p: Problem, i: nat, slot: Slot)
    requires i < |p.ins| && |p.ins[i]| == |slot.hist|
    ensures p.Distance(i, slot) == p.MoveCost(i, slot)
  {
    if Total(p.ins[i]) == 0 { TotalZero(p.ins[i]); }
    ZeroTotal(|p.ins[i]|);
  }

  lemma CheapestListed(p: Problem, slots: seq<Slot>, list: seq<nat>, i: nat, preferred: nat, best: nat)
    requires p.IsCheapest(slots, list, i, preferred, best)
    ensures best in list
  {
  }

  lemma StillNoWorse(p: Problem, was: seq<Pair>, pairs: seq<Pair>, slots: seq<Slot>, i: nat, j: nat)
    requires p.NoWorse(was, slots, i, j) && |pairs| == |was| && pairs[0].costDiff <= was[0].costDiff
    ensures p.NoWorse(pairs, slots, i, j)
  {
  }

  lemma ListsDistinct(list: seq<nat>, symbols: seq<nat>, lo: nat, hi: nat)
    requires Lists(list, symbols, lo, hi)
    ensures Distinct(list)
  {
  }

  lemma QueueSize(p: Problem, pairs: seq<Pair>, n: nat, list: seq<nat>, slots: seq<Slot>)
    requires p.Queue(pairs, n, list, slots)
    ensures n <= |pairs| && forall k :: 0 <= k < n ==> pairs[k].idx1 < pairs[k].idx2
  {
  }

  lemma PairCurrent(p: Problem, slots: seq<Slot>, list: seq<nat>, a: nat, b: nat)
    requires a < b < |slots| && a in list && b in list && |slots[a].hist| == |slots[b].hist|
    ensures p.Current(p.MergePair(slots, a, b), list, slots)
  {
  }

  lemma IsOffer(p: Problem, was: seq<Pair>, n0: nat, slots: seq<Slot>, a: nat, b: nat)
    requires n0 <= |was| && a < b < |slots| && |slots[a].hist| == |slots[b].hist|
    ensures p.MergeCost(slots[a], slots[b]) >= 0.0 ==> p.Offers(was, n0, was, n0, slots, a, b)
    ensures forall pairs, n: nat ::
              (n <= |pairs| && Bag(pairs, n) == Bag(was, n0) + multiset{p.MergePair(slots, a, b)}) ==>
                p.Offers(was, n0, pairs, n, slots, a, b)
  {
  }

  lemma PartNone(p: Problem, orig: seq<Pair>, a: nat, b: nat, list: seq<nat>, slots: seq<Slot>)
    ensures Part(p, orig, 0, orig, 0, a, b, list, slots)
  {
  }

  lemma PartSkip(p: Problem, pairs: seq<Pair>, n: nat, orig: seq<Pair>, i: nat, a: nat, b: nat, list: seq<nat>,
                 slots: seq<Slot>)
    requires Part(p, pairs, n, orig, i, a, b, list, slots) && i < |orig| && Meets(orig[i], a, b)
    ensures Part(p, pairs, n, orig, i + 1, a, b, list, slots)
  {
    hide Problem.Queue;
    KeptNext(orig, i, a, b);
  }

  lemma PartOrdered(p: Problem, pairs: seq<Pair>, n: nat, orig: seq<Pair>, i: nat, a: nat, b: nat, list: seq<nat>,
                    slots: seq<Slot>)
    requires Part(p, pairs, n, orig, i, a, b, list, slots)
    ensures n > 0 ==> pairs[0].idx1 < pairs[0].idx2
  {
  }

  lemma PartNext(p: Problem, pairs: seq<Pair>, n: nat, orig: seq<Pair>, i: nat, a: nat, b: nat, list: seq<nat>,
                 slots: seq<Slot>)
    requires Part(p, pairs, n, orig, i, a, b, list, slots) && i < |orig| && n < |pairs| && !Meets(orig[i], a, b)
             && p.Current(orig[i], list, slots)
    requires pairs[0].idx1 < pairs[0].idx2 && orig[i].idx1 < orig[i].idx2 && (n == 0 ==> !Less(pairs[0], orig[i]))
    ensures Less(pairs[0], orig[i]) ==>
            Part(p, pairs[n := pairs[0]][0 := orig[i]], n + 1, orig, i + 1, a, b, list, slots)
    ensures !Less(pairs[0], orig[i]) ==> Part(p, pairs[n := orig[i]], n + 1, orig, i + 1, a, b, list, slots)
  {
    hide Problem.Current, Less, Best, Kept;
    var q := orig[i];
    KeptNext(orig, i, a, b);
    PutFront(pairs, n, q);
    BestGrows(pairs, n, q);
  }

  lemma PartAll(p: Problem, pairs: seq<Pair>, n: nat, orig: seq<Pair>, i: nat, a: nat, b: nat, list: seq<nat>,
                slots: seq<Slot>)
    requires Part(p, pairs, n, orig, i, a, b, list, slots)
    ensures n <= |pairs| && i <= |orig| && p.Queue(pairs, n, list, slots)
            && Bag(pairs, n) == multiset(Kept(orig, i, a, b))
  {
  }

  lemma BestFront(pairs: seq<Pair>, n: nat, k: nat)
    requires Best(pairs, n) && k < n
    ensures pairs[0].idx1 < pairs[0].idx2 && pairs[k].idx1 < pairs[k].idx2 && !Less(pairs[0], pairs[k])
  {
  }

  /** A pair that does not meet the merged one is not affected. */
  lemma StillCurrent(p: Problem, q: Pair, list: seq<nat>, slots0: seq<Slot>, list': seq<nat>, slots: seq<Slot>, a: nat,
                     b: nat)
    requires p.Current(q, list, slots0) && a !in {q.idx1, q.idx2} && b !in {q.idx1, q.idx2}
    requires |slots| == |slots0| && forall c :: 0 <= c < |slots| && c != a ==> slots[c] == slots0[c]
    requires forall c :: c in list && c != b ==> c in list'
    ensures p.Current(q, list', slots) && q.idx1 < q.idx2
  {
  }

  lemma RowStart(p: Problem, pairs: seq<Pair>, slots: seq<Slot>, list: seq<nat>, i: nat)
    requires p.BestOf(pairs, slots, list, i, 0)
    ensures p.BestOf(pairs, slots, list, i, i + 1)
  {
  }

  lemma RowNext(p: Problem, was: seq<Pair>, pairs: seq<Pair>, slots: seq<Slot>, list: seq<nat>, i: nat, j: nat)
    requires p.BestOf(was, slots, list, i, j) && i < j < |list| && |pairs| == |was|
             && p.NoWorse(pairs, slots, list[i], list[j])
    requires (i == 0 && j == 1) || pairs[0].costDiff <= was[0].costDiff
    ensures p.BestOf(pairs, slots, list, i, j + 1)
  {
    forall k, l | 0 <= k < l < |list| && (k < i || (k == i && l < j + 1))
      ensures p.NoWorse(pairs, slots, list[k], list[l])
    {
      if !(k == i && l == j) { assert p.NoWorse(was, slots, list[k], list[l]); }
    }
  }

  lemma RowEnd(p: Problem, pairs: seq<Pair>, slots: seq<Slot>, list: seq<nat>, i: nat)
    requires p.BestOf(pairs, slots, list, i, |list|)
    ensures p.BestOf(pairs, slots, list, i + 1, 0)
  {
  }

  lemma BestOrdered(pairs: seq<Pair>, n: nat)
    requires Best(pairs, n)
    ensures n <= |pairs| && (n > 0 ==> pairs[0].idx1 < pairs[0].idx2)
  {
  }

  lemma IsOrdered(p: Problem, q: Pair, list: seq<nat>, slots: seq<Slot>)
    requires p.Current(q, list, slots)
    ensures q.idx1 < q.idx2
  {
  }

  lemma ProblemValid(p: Problem, slots: seq<Slot>, symbols: seq<nat>)
    requires p.AllExact(slots, symbols)
    ensures p.Valid() && |slots| == |symbols| == |p.ins|
  {
  }

  lemma CostBounds(p: Problem, g: Hist, h: Hist, m: nat, n: nat)
    requires p.Valid() && |g| == |h|
    ensures 0.0 <= p.cost(Add(g, h)) < INFINITE_COST && p.gain(m, n) <= 0.0
  {
  }

  lemma CostIs(p: Problem, slot: Slot, symbols: seq<nat>, c: nat)
    requires p.Valid() && |symbols| == |p.ins| && p.Exact(slot, symbols, c)
    ensures 0.0 <= slot.bitCost < INFINITE_COST
  {
  }
}
