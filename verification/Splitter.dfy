/** The greedy block splitter: it cuts a symbol stream into blocks, and gives each block a new type or
    the type of one of the last two blocks. The same steps run per context when a histogram is taken to
    be the concatenation of the histograms of all contexts, and its entropy the sum of theirs. */
module Splitter {
  import opened Arithmetic
  import opened Histograms

  // ---------- Which type owns which symbol ----------

  function Repeat(t: nat, n: nat): (r: seq<nat>)
    ensures |r| == n
  {
    seq(n, _ => t)
  }

  /** The types of the positions covered by the first n blocks. */
  ghost function Owners(types: seq<nat>, lengths: seq<nat>, n: nat): seq<nat>
    requires n <= |types| && n <= |lengths|
  {
    if n == 0 then [] else Owners(types, lengths, n - 1) + Repeat(types[n - 1], lengths[n - 1])
  }

  lemma {:induction false} OwnersSame(types: seq<nat>, lengths: seq<nat>, types': seq<nat>, lengths': seq<nat>, n: nat)
    requires n <= |types| && n <= |lengths| && n <= |types'| && n <= |lengths'|
    requires forall k :: 0 <= k < n ==> types[k] == types'[k] && lengths[k] == lengths'[k]
    ensures Owners(types, lengths, n) == Owners(types', lengths', n)
  {
    if n > 0 { OwnersSame(types, lengths, types', lengths', n - 1); }
  }

  /** A further block. */
  lemma OwnersAppend(types: seq<nat>, lengths: seq<nat>, n: nat, t: nat, len: nat)
    requires n < |types| == |lengths|
    ensures Owners(types[n := t], lengths[n := len], n + 1) == Owners(types, lengths, n) + Repeat(t, len)
  {
    OwnersSame(types, lengths, types[n := t], lengths[n := len], n);
  }

  /** A longer last block. */
  lemma OwnersLonger(types: seq<nat>, lengths: seq<nat>, n: nat, len: nat)
    requires 0 < n <= |types| == |lengths|
    ensures Owners(types, lengths[n - 1 := lengths[n - 1] + len], n) ==
            Owners(types, lengths, n) + Repeat(types[n - 1], len)
  {
    var l' := lengths[n - 1 := lengths[n - 1] + len];
    OwnersSame(types, lengths, types, l', n - 1);
    assert Repeat(types[n - 1], lengths[n - 1] + len) ==
           Repeat(types[n - 1], lengths[n - 1]) + Repeat(types[n - 1], len);
  }

  ghost predicate InAlphabet(history: seq<nat>,
                             alphabet: nat) { forall i :: 0 <= i < |history| ==> history[i] < alphabet }

  /** Counts of the symbols among the first k that type t owns. */
  ghost function Owned(history: seq<nat>, alphabet: nat, owners: seq<nat>, t: nat, k: nat): (h: Hist)
    requires InAlphabet(history, alphabet) && k <= |history| && k <= |owners|
    ensures |h| == alphabet
  {
    if k == 0 then Zeros(alphabet)
    else
      var h := Owned(history, alphabet, owners, t, k - 1);
      if owners[k - 1] == t then Bump(h, history[k - 1]) else h
  }

  /** Counts of the symbols lo .. hi - 1. */
  ghost function Counted(history: seq<nat>, alphabet: nat, lo: nat, hi: nat): (h: Hist)
    requires InAlphabet(history, alphabet) && lo <= hi <= |history|
    ensures |h| == alphabet
  {
    if lo == hi then Zeros(alphabet) else Bump(Counted(history, alphabet, lo, hi - 1), history[hi - 1])
  }

  /** Later symbols and owners do not matter. */
  lemma {:induction false} OwnedPrefix(history: seq<nat>, history': seq<nat>, alphabet: nat, owners: seq<nat>,
                                       owners': seq<nat>, t: nat, k: nat)
    requires InAlphabet(history, alphabet) && InAlphabet(history', alphabet) && k <= |history| && k <= |owners|
    requires history <= history' && owners <= owners'
    ensures Owned(history', alphabet, owners', t, k) == Owned(history, alphabet, owners, t, k)
  {
    if k > 0 { OwnedPrefix(history, history', alphabet, owners, owners', t, k - 1); }
  }

  lemma {:induction false} CountedPrefix(history: seq<nat>, history': seq<nat>, alphabet: nat, lo: nat, hi: nat)
    requires InAlphabet(history, alphabet) && InAlphabet(history', alphabet) && lo <= hi <= |history|
             && history <= history'
    ensures Counted(history', alphabet, lo, hi) == Counted(history, alphabet, lo, hi)
    decreases hi
  {
    if lo < hi { CountedPrefix(history, history', alphabet, lo, hi - 1); }
  }

  /** When type t takes the symbols from lo on, its counts grow by theirs, and no other counts change. */
  lemma {:induction false} OwnedGrows(history: seq<nat>, alphabet: nat, owners: seq<nat>, t: nat, n: nat, u: nat,
                                      hi: nat)
    requires InAlphabet(history, alphabet) && |owners| <= hi <= |history| && hi <= |owners| + n
    ensures Owned(history, alphabet, owners + Repeat(t, n), u, hi) ==
            if u == t then Add(Owned(history, alphabet, owners, u, |owners|), Counted(history, alphabet, |owners|, hi))
            else Owned(history, alphabet, owners, u, |owners|)
    decreases hi
  {
    var all := owners + Repeat(t, n);
    if hi == |owners| {
      OwnedPrefix(history, history, alphabet, owners, all, u, hi);
      AddZero(Owned(history, alphabet, owners, u, |owners|));
    } else {
      OwnedGrows(history, alphabet, owners, t, n, u, hi - 1);
      assert all[hi - 1] == t;
      if u == t {
        AddBump(Owned(history, alphabet, owners, u, |owners|), Counted(history, alphabet, |owners|, hi - 1),
                history[hi - 1]);
      }
    }
  }

  /** How often symbol x occurs among the first k positions of type t. */
  ghost function Occurs(history: seq<nat>, owners: seq<nat>, t: nat, x: nat, k: nat): nat
    requires k <= |history| && k <= |owners|
  {
    if k == 0 then 0
    else Occurs(history, owners, t, x, k - 1) + if owners[k - 1] == t && history[k - 1] == x then 1 else 0
  }

  /** The histogram of a type counts its symbols. */
  lemma {:induction false} OwnedCounts(history: seq<nat>, alphabet: nat, owners: seq<nat>, t: nat, x: nat, k: nat)
    requires InAlphabet(history, alphabet) && k <= |history| && k <= |owners| && x < alphabet
    ensures Owned(history, alphabet, owners, t, k)[x] == Occurs(history, owners, t, x, k)
  {
    if k > 0 { OwnedCounts(history, alphabet, owners, t, x, k - 1); }
  }

  /** A type that owns nothing yet. */
  lemma {:induction false} OwnedNone(history: seq<nat>, alphabet: nat, owners: seq<nat>, t: nat, k: nat)
    requires InAlphabet(history, alphabet) && k <= |history| && k <= |owners| && t !in owners
    ensures Owned(history, alphabet, owners, t, k) == Zeros(alphabet)
  {
    if k > 0 { OwnedNone(history, alphabet, owners, t, k - 1); }
  }

  lemma {:induction false} OwnersBelow(types: seq<nat>, lengths: seq<nat>, n: nat, t: nat)
    requires n <= |types| && n <= |lengths| && forall k :: 0 <= k < n ==> types[k] < t
    ensures t !in Owners(types, lengths, n)
  {
    if n > 0 { OwnersBelow(types, lengths, n - 1, t); }
  }

  /** The histogram of every type counts the symbols, up to r, that the type owns. */
  ghost predicate Tallied(histograms: seq<Hist>, numTypes: nat, history: seq<nat>, alphabet: nat, owners: seq<nat>,
                          r: nat) {
    && InAlphabet(history, alphabet) && r <= |history| && r <= |owners| && numTypes <= |histograms|
    && forall t :: 0 <= t < numTypes ==> histograms[t] == Owned(history, alphabet, owners, t, r)
  }

  /** A known type takes the symbols from r on. */
  lemma TallyMerged(histograms: seq<Hist>, numTypes: nat, history: seq<nat>, alphabet: nat, owners: seq<nat>, t: nat,
                    n: nat)
    requires Tallied(histograms, numTypes, history, alphabet, owners, |owners|) && t < numTypes
             && |history| <= |owners| + n
    ensures |histograms[t]| == alphabet
    ensures var h := Add(histograms[t], Counted(history, alphabet, |owners|, |history|));
            Tallied(histograms[t := h], numTypes, history, alphabet, owners + Repeat(t, n), |history|)
  {
    hide Owned, Counted, Add;
    forall u | 0 <= u < numTypes ensures histograms[u] == Owned(history, alphabet, owners, u, |owners|) { }
    var h := Add(histograms[t], Counted(history, alphabet, |owners|, |history|));
    forall u | 0 <= u < numTypes
      ensures histograms[t := h][u] == Owned(history, alphabet, owners + Repeat(t, n), u, |history|)
    {
      OwnedGrows(history, alphabet, owners, t, n, u, |history|);
    }
  }

  /** A new type takes them. */
  lemma TallyNew(histograms: seq<Hist>, numTypes: nat, history: seq<nat>, alphabet: nat, owners: seq<nat>, n: nat)
    requires Tallied(histograms, numTypes, history, alphabet, owners, |owners|) && numTypes < |histograms|
             && |history| <= |owners| + n
    requires numTypes !in owners && histograms[numTypes] == Counted(history, alphabet, |owners|, |history|)
    ensures Tallied(histograms, numTypes + 1, history, alphabet, owners + Repeat(numTypes, n), |history|)
  {
    hide Owned, Counted;
    forall u | 0 <= u < numTypes + 1
      ensures histograms[u] == Owned(history, alphabet, owners + Repeat(numTypes, n), u, |history|)
    {
      OwnedGrows(history, alphabet, owners, numTypes, n, u, |history|);
      if u == numTypes {
        OwnedNone(history, alphabet, owners, numTypes, |owners|);
        AddZero(histograms[numTypes]);
      }
    }
  }

  /** The histograms behind those of the types do not matter. */
  lemma TallyOther(histograms: seq<Hist>, numTypes: nat, history: seq<nat>, alphabet: nat, owners: seq<nat>, r: nat,
                   k: nat, h: Hist)
    requires Tallied(histograms, numTypes, history, alphabet, owners, r) && numTypes <= k < |histograms|
    ensures Tallied(histograms[k := h], numTypes, history, alphabet, owners, r)
  {
  }

  /** A further symbol that no block covers yet. */
  lemma TallyMore(histograms: seq<Hist>, numTypes: nat, history: seq<nat>, s: nat, alphabet: nat, owners: seq<nat>,
                  r: nat)
    requires Tallied(histograms, numTypes, history, alphabet, owners, r) && s < alphabet
    ensures Tallied(histograms, numTypes, history + [s], alphabet, owners, r)
  {
    hide Owned;
    forall t | 0 <= t < numTypes
      ensures histograms[t] == Owned(history + [s], alphabet, owners, t, r)
    {
      OwnedPrefix(history, history + [s], alphabet, owners, owners, t, r);
    }
  }

  function MaxBlocks(total: nat, least: nat): nat
    requires least > 0
  {
    total / least + 1
  }

  /** There is room for as many blocks of the least size as the stream can hold, and one more. */
  lemma RoomForBlocks(numBlocks: nat, least: nat, total: nat)
    requires least > 0 && Times(numBlocks, least) <= total
    ensures numBlocks < MaxBlocks(total, least)
  {
    var q := total / least;
    assert total < (q + 1) * least;
    if q + 1 <= numBlocks { LessTimes(q + 1, numBlocks, least); }
  }

  /** The configuration; only the entropy's being a function of the histogram matters. */
  datatype Config = Config(alphabet: nat, minBlockSize: nat, maxTypes: nat, numSymbols: nat, splitThreshold: real,
                           entropy: Hist -> real)
  {
    ghost predicate Valid() { minBlockSize > 0 && maxTypes > 0 }
  }

  /** Blocks, types and histograms, and what is remembered of the last two blocks. */
  datatype State = State(
    types: seq<nat>, lengths: seq<nat>, numTypes: nat, numBlocks: nat, histograms: seq<Hist>,
    last0: nat, last1: nat, lastEntropy0: real, lastEntropy1: real)
  {
    /** Blocks and types fit their arrays. */
    ghost predicate Shaped(c: Config) {
      && c.Valid() && |types| == |lengths| == MaxBlocks(c.numSymbols, c.minBlockSize)
      && |histograms| == Min(MaxBlocks(c.numSymbols, c.minBlockSize), c.maxTypes + 1)
      && numBlocks <= |types| && numTypes <= Min(numBlocks, c.maxTypes) && numTypes <= |histograms|
      && (numTypes == 0 <==> numBlocks == 0) && forall k :: 0 <= k < numBlocks ==> types[k] < numTypes
    }

    /** The types of the last two blocks, and their entropies. With one type there is one block, and the
        two entries agree. */
    ghost predicate Remembered(c: Config) {
      && numBlocks <= |types| && numTypes <= |histograms| && (numTypes == 1 <==> numBlocks == 1)
      && (numBlocks > 0 ==>
            && last0 < numTypes && last1 < numTypes && types[numBlocks - 1] == last0
            && lastEntropy0 == c.entropy(histograms[last0]) && lastEntropy1 == c.entropy(histograms[last1]))
      && (numTypes >= 2 ==> numBlocks >= 2 && types[numBlocks - 2] == last1 && last0 != last1)
    }

    ghost function Covered(): seq<nat>
      requires numBlocks <= |types| && numBlocks <= |lengths|
    {
      Owners(types, lengths, numBlocks)
    }

    /** The last block starts at or before position r. */
    ghost predicate LastFrom(r: nat) {
      0 < numBlocks <= |types| && numBlocks <= |lengths| && |Owners(types, lengths, numBlocks - 1)| <= r
    }

    /** The blocks cover the first r symbols and pad positions more, and the histograms count the r. */
    ghost predicate Splits(c: Config, history: seq<nat>, r: nat, pad: nat) {
      && Shaped(c) && Remembered(c)
      && |Covered()| == r + pad && Times(numBlocks, c.minBlockSize) <= r + pad
      && Tallied(histograms, numTypes, history, c.alphabet, Covered(), r)
    }

    /** The symbols of the unfinished block are in the histogram behind those of the types. */
    ghost predicate Current(c: Config, history: seq<nat>, r: nat) {
      && InAlphabet(history, c.alphabet) && r <= |history| <= c.numSymbols && numTypes < |histograms|
      && histograms[numTypes] == Counted(history, c.alphabet, r, |history|)
    }
  }

  /** Room for one more block and one more type. */
  lemma Room(c: Config, s: State, history: seq<nat>, r: nat)
    requires s.Splits(c, history, r, 0) && r <= |history| <= c.numSymbols
    ensures s.numBlocks < |s.types| && s.numTypes < |s.histograms|
  {
    hide State.Remembered, Tallied, Owners, Times, MaxBlocks;
    RoomForBlocks(s.numBlocks, c.minBlockSize, c.numSymbols);
  }

  /** A further block of n positions with type t, for any histograms. */
  ghost function Append(s: State, t: nat, n: nat): State
    requires s.numBlocks < |s.types| == |s.lengths|
  {
    s.(types := s.types[s.numBlocks := t], lengths := s.lengths[s.numBlocks := n], numBlocks := s.numBlocks + 1)
  }

  /** The first block, or a block of a new type: the current histogram becomes that type's. */
  lemma NewTypeSplits(c: Config, s: State, history: seq<nat>, r: nat, n: nat, s': State)
    requires s.Splits(c, history, r, 0) && s.Current(c, history, r) && |history| <= r + n && c.minBlockSize <= n
             && s.numTypes < c.maxTypes
    requires s.numBlocks < |s.types| == |s.lengths|
    requires s' == Append(s, s.numTypes, n).(numTypes := s.numTypes + 1,
                     last0 := s.numTypes, last1 := if s.numBlocks == 0 then 0 else s.last0,
                     lastEntropy0 := c.entropy(s.histograms[s.numTypes]),
                     lastEntropy1 := if s.numBlocks == 0 then c.entropy(s.histograms[s.numTypes]) else s.lastEntropy0)
    ensures s'.LastFrom(r)
    ensures s'.Splits(c, history, |history|, r + n - |history|)
  {
    hide Tallied, Owners, Owned, Counted, Times, MaxBlocks;
    Room(c, s, history, r);
    OwnersBelow(s.types, s.lengths, s.numBlocks, s.numTypes);
    TallyNew(s.histograms, s.numTypes, history, c.alphabet, s.Covered(), n);
    OwnersAppend(s.types, s.lengths, s.numBlocks, s.numTypes, n);
    OwnersSame(s.types, s.lengths, s'.types, s'.lengths, s.numBlocks);
    TimesStep(s.numBlocks + 1, c.minBlockSize);
  }

  /** A block with the type of the second last block: there is one, because with a single type both
      differences are the same. */
  lemma MergeSecondSplits(c: Config, s: State, history: seq<nat>, r: nat, n: nat, s': State)
    requires s.Splits(c, history, r, 0) && s.Current(c, history, r) && |history| <= r + n && c.minBlockSize <= n
    requires s.numBlocks >= 2 && s.numBlocks < |s.types| == |s.lengths|
             && |s.histograms[s.last1]| == |s.histograms[s.numTypes]|
    requires s' == Append(s, s.last1, n).(
                     histograms := s.histograms[s.last1 := Add(s.histograms[s.last1], s.histograms[s.numTypes])],
                     last0 := s.last1, last1 := s.last0,
                     lastEntropy0 := c.entropy(Add(s.histograms[s.last1], s.histograms[s.numTypes])), lastEntropy1 :=
                       s.lastEntropy0)
    ensures s'.LastFrom(r)
    ensures s'.Splits(c, history, |history|, r + n - |history|)
  {
    hide Tallied, Owners, Owned, Counted, Times, MaxBlocks, Add;
    Room(c, s, history, r);
    TallyMerged(s.histograms, s.numTypes, history, c.alphabet, s.Covered(), s.last1, n);
    OwnersAppend(s.types, s.lengths, s.numBlocks, s.last1, n);
    OwnersSame(s.types, s.lengths, s'.types, s'.lengths, s.numBlocks);
    TimesStep(s.numBlocks + 1, c.minBlockSize);
  }

  /** A longer last block. */
  lemma MergeLastSplits(c: Config, s: State, history: seq<nat>, r: nat, n: nat, s': State)
    requires s.Splits(c, history, r, 0) && s.Current(c, history, r) && |history| <= r + n && c.minBlockSize <= n
    requires s.numBlocks >= 1 && |s.types| == |s.lengths| && |s.histograms[s.last0]| == |s.histograms[s.numTypes]|
    requires var e := c.entropy(Add(s.histograms[s.last0], s.histograms[s.numTypes]));
             s' == s.(lengths := s.lengths[s.numBlocks - 1 := s.lengths[s.numBlocks - 1] + n],
                      histograms := s.histograms[s.last0 := Add(s.histograms[s.last0], s.histograms[s.numTypes])],
                      lastEntropy0 := e, lastEntropy1 := if s.numTypes == 1 then e else s.lastEntropy1)
    ensures s'.LastFrom(r)
    ensures s'.Splits(c, history, |history|, r + n - |history|)
  {
    hide Tallied, Owners, Owned, Counted, Times, MaxBlocks, Add;
    TallyMerged(s.histograms, s.numTypes, history, c.alphabet, s.Covered(), s.last0, n);
    OwnersLonger(s.types, s.lengths, s.numBlocks, n);
    OwnersSame(s.types, s.lengths, s'.types, s'.lengths, s.numBlocks - 1);
    OwnersLess(s.types, s.lengths, s.numBlocks);
  }

  lemma OwnersLess(types: seq<nat>, lengths: seq<nat>, n: nat)
    requires 0 < n <= |types| && n <= |lengths|
    ensures |Owners(types, lengths, n - 1)| <= |Owners(types, lengths, n)|
  {
  }

  // ---------- The greedy choice, from the stream alone ----------

  /** Blocks and their types, the number of types, the size at which the next block ends, how many blocks in a row
      went to the last one, and how many symbols the blocks cover. */
  datatype Plan = Plan(types: seq<nat>, lengths: seq<nat>, numTypes: nat, target: nat, merges: nat, covered: nat)
  {
    ghost predicate Fits(history: seq<nat>, alphabet: nat) {
      && InAlphabet(history, alphabet) && |types| == |lengths|
      && |Owners(types, lengths, |types|)| == covered <= |history|
    }
  }

  /** How much more it costs to code the symbols behind the blocks together with those of type t. */
  ghost function Difference(c: Config, history: seq<nat>, p: Plan, t: nat): real
    requires p.Fits(history, c.alphabet)
  {
    var curr := Counted(history, c.alphabet, p.covered, |history|);
    var owned := Owned(history, c.alphabet, Owners(p.types, p.lengths, |p.types|), t, p.covered);
    c.entropy(Add(owned, curr)) - c.entropy(curr) - c.entropy(owned)
  }

  /** A further block of n positions: of a new type, if that is allowed and it costs more than the threshold to join
      either of the last two blocks; else of the second last block's type, if that is better by more than 20 bits;
      else it makes the last block longer, and from the second time on in a row the blocks to come too. */
  ghost function Decide(c: Config, history: seq<nat>, p: Plan, n: nat): Plan
    requires p.Fits(history, c.alphabet)
  {
    var k := |p.types|;
    if k == 0 then Plan([0], [n], 1, p.target, p.merges, n)
    else
      var d0 := Difference(c, history, p, p.types[k - 1]);
      var d1 := if k == 1 then d0 else Difference(c, history, p, p.types[k - 2]);
      if p.numTypes < c.maxTypes && d0 > c.splitThreshold && d1 > c.splitThreshold then
        Plan(p.types + [p.numTypes], p.lengths + [n], p.numTypes + 1, c.minBlockSize, 0, p.covered + n)
      else if d1 < d0 - 20.0 then
        Plan(p.types + [p.types[k - 2]], p.lengths + [n], p.numTypes, c.minBlockSize, 0, p.covered + n)
      else
        Plan(p.types, p.lengths[k - 1 := p.lengths[k - 1] + n], p.numTypes,
             if p.merges == 0 then p.target else p.target + c.minBlockSize, p.merges + 1, p.covered + n)
  }

  lemma DecideFits(c: Config, history: seq<nat>, p: Plan, n: nat)
    requires p.Fits(history, c.alphabet)
    ensures var q := Decide(c, history, p, n);
            |q.types| == |q.lengths| && q.covered == p.covered + n == |Owners(q.types, q.lengths, |q.types|)|
  {
    hide Difference, Owned, Counted;
    var q, k := Decide(c, history, p, n), |p.types|;
    if k == 0 {
      assert Owners([0], [n], 0) == [];
    } else if |q.types| == k + 1 {
      OwnersSame(p.types, p.lengths, q.types, q.lengths, k);
    } else {
      OwnersLonger(p.types, p.lengths, k, n);
    }
  }

  /** The plan after all symbols: a block ends as soon as it has the target size. */
  ghost function Split(c: Config, history: seq<nat>): (p: Plan)
    requires InAlphabet(history, c.alphabet)
    ensures p.Fits(history, c.alphabet)
  {
    if history == [] then Plan([], [], 0, c.minBlockSize, 0, 0)
    else
      var h := history[..|history| - 1];
      var p := Split(c, h);
      if p.covered + p.target == |history| then
        DecideFits(c, history, p, p.target);
        Decide(c, history, p, p.target)
      else p
  }

  lemma SplitNext(c: Config, history: seq<nat>, x: nat)
    requires InAlphabet(history, c.alphabet) && x < c.alphabet
    ensures Split(c, history).Fits(history + [x], c.alphabet)
    ensures var p := Split(c, history);
            Split(c, history + [x]) == if p.covered + p.target == |history| + 1 then
              Decide(c, history + [x], p, p.target) else p
  {
    assert (history + [x])[..|history|] == history;
  }

  /** What the arrays hold so far. */
  ghost predicate Planned(p: Plan, s: State, r: nat) {
    && s.numBlocks <= |s.types| == |s.lengths| && p.types == s.types[..s.numBlocks]
    && p.lengths == s.lengths[..s.numBlocks] && p.numTypes == s.numTypes && p.covered == r
  }

  /** The cached entropies give the differences. */
  lemma DifferencesAre(c: Config, s: State, history: seq<nat>, p: Plan)
    requires s.Splits(c, history, p.covered, 0) && s.Current(c, history, p.covered) && Planned(p, s, p.covered)
    ensures p.Fits(history, c.alphabet) && s.numTypes < |s.histograms| && |p.types| == s.numBlocks
    ensures c.Valid() && (s.numBlocks == 0 <==> s.numTypes == 0)
            && (s.numBlocks > 1 ==> s.types[s.numBlocks - 2] == s.last1)
    ensures s.numBlocks > 0 ==>
              && s.last0 < |s.histograms| && s.last1 < |s.histograms|
              && |s.histograms[s.last0]| == |s.histograms[s.last1]| == |s.histograms[s.numTypes]|
              && Gap(c, s, s.last0, s.lastEntropy0) == Difference(c, history, p, p.types[|p.types| - 1])
              && (s.numBlocks == 1 ==> Gap(c, s, s.last1, s.lastEntropy1) == Gap(c, s, s.last0, s.lastEntropy0))
              && (s.numBlocks > 1 ==>
                    Gap(c, s, s.last1, s.lastEntropy1) == Difference(c, history, p, p.types[|p.types| - 2]))
  {
    hide Owned, Counted, Times, MaxBlocks, Add;
    OwnersSame(s.types, s.lengths, p.types, p.lengths, s.numBlocks);
    hide Owners;
  }

  ghost function Gap(c: Config, s: State, t: nat, entropy: real): real
    requires t < |s.histograms| && s.numTypes < |s.histograms| && |s.histograms[t]| == |s.histograms[s.numTypes]|
  {
    c.entropy(Add(s.histograms[t], s.histograms[s.numTypes])) - c.entropy(s.histograms[s.numTypes]) - entropy
  }

  class BlockSplitter {
    const c: Config
    var types: seq<nat>
    var lengths: seq<nat>
    var numTypes: nat
    var numBlocks: nat
    var histograms: seq<Hist>
    var last0: nat
    var last1: nat
    var lastEntropy0: real
    var lastEntropy1: real
    var currHistogramIdx: nat
    var blockSize: nat
    var targetBlockSize: nat
    var mergeLastCount: nat
    ghost var history: seq<nat>      // all symbols added

    ghost function Now(): State reads this {
      State(types, lengths, numTypes, numBlocks, histograms, last0, last1, lastEntropy0, lastEntropy1)
    }

    /** The plan that the splitter has followed so far. */
    ghost predicate Follows(p: Plan, r: nat) reads this {
      Planned(p, Now(), r) && p.target == targetBlockSize && p.merges == mergeLastCount
    }

    /** Before the end: the blocks and the histograms account for all symbols but the last blockSize. */
    ghost predicate Valid() reads this {
      && currHistogramIdx == numTypes && blockSize < targetBlockSize && c.minBlockSize <= targetBlockSize
         && blockSize <= |history|
      && Now().Splits(c, history, |history| - blockSize, 0) && Now().Current(c, history, |history| - blockSize)
      && InAlphabet(history, c.alphabet) && Follows(Split(c, history), |history| - blockSize)
    }

    constructor (config: Config)
      requires config.Valid()
      ensures Valid() && history == [] && c == config
    {
      c := config;
      var maxBlocks := MaxBlocks(config.numSymbols, config.minBlockSize);
      types, lengths := seq(maxBlocks, _ => 0), seq(maxBlocks, _ => 0);
      histograms := seq(Min(maxBlocks, config.maxTypes + 1), _ => Zeros(config.alphabet));
      numTypes, numBlocks, blockSize, targetBlockSize, currHistogramIdx, mergeLastCount :=
        0, 0, 0, config.minBlockSize, 0, 0;
      last0, last1, lastEntropy0, lastEntropy1 := 0, 0, 0.0, 0.0;
      history := [];
    }

    /** Adds a symbol; at the target size the block is finished. The state is that of the plan for all symbols. */
    method AddSymbol(s: nat)
      requires Valid() && s < c.alphabet && |history| < c.numSymbols
      modifies this
      ensures Valid() && history == old(history) + [s]
    {
      hide Tallied, Owners, Counted, MaxBlocks, State.Shaped, State.Remembered, Split, Decide;
      ghost var r, p := |history| - blockSize, Split(c, history);
      SplitNext(c, history, s);
      SymbolSplits(c, Now(), history, r, s);
      histograms := histograms[currHistogramIdx := Bump(histograms[currHistogramIdx], s)];
      blockSize := blockSize + 1;
      history := history + [s];
      if blockSize == targetBlockSize {
        FinishBlock(r, p);
        ConfigValid(c, Now(), history, |history|);
        StartBlock(c, Now(), history);
      }
    }

    /** The decision at the end of a block: a new type, the second last type, or the last block again. A
        block that is too short, which only the last can be, is taken to be longer. */
    method FinishBlock(ghost r: nat, ghost p: Plan)
      requires r + blockSize == |history| && currHistogramIdx == numTypes && c.minBlockSize <= targetBlockSize
      requires Now().Splits(c, history, r, 0) && Now().Current(c, history, r) && Follows(p, r)
      modifies this
      ensures history == old(history) && blockSize == 0 && currHistogramIdx == numTypes
              && c.minBlockSize <= targetBlockSize
      ensures p.Fits(history, c.alphabet)
      ensures var n := if old(blockSize) < c.minBlockSize then c.minBlockSize else old(blockSize);
              Follows(Decide(c, history, p, n), r + n)
      ensures Now().LastFrom(r)
              && Now().Splits(c, history, |history|,
                              if old(blockSize) < c.minBlockSize then c.minBlockSize - old(blockSize) else 0)
      ensures numTypes < |histograms| ==> histograms[numTypes] == Zeros(c.alphabet)
    {
      hide State.Splits, State.Current, State.LastFrom, Add, Difference;
      ghost var size := blockSize;
      CurrentEnd(c, Now(), history, r);
      Room(c, Now(), history, r);
      DifferencesAre(c, Now(), history, p);
      var n := if blockSize < c.minBlockSize then c.minBlockSize else blockSize;
      var curr := histograms[currHistogramIdx];
      var entropy := c.entropy(curr);
      if numBlocks == 0 {
        NewType(n, entropy, r);
        return;
      }
      Choose(n, curr, entropy, r, p);
    }

    /** The choice for every block but the first. */
    method Choose(n: nat, curr: Hist, entropy: real, ghost r: nat, ghost p: Plan)
      requires currHistogramIdx == numTypes < |histograms| && curr == histograms[numTypes] && entropy == c.entropy(curr)
      requires Now().Splits(c, history, r, 0) && Now().Current(c, history, r) && |history| <= r + n
               && c.minBlockSize <= n && Follows(p, r) && numBlocks > 0 && c.minBlockSize <= targetBlockSize
      modifies this
      ensures history == old(history) && blockSize == 0 && currHistogramIdx == numTypes
              && c.minBlockSize <= targetBlockSize
      ensures p.Fits(history, c.alphabet) && Follows(Decide(c, history, p, n), r + n)
      ensures Now().LastFrom(r) && Now().Splits(c, history, |history|, r + n - |history|)
      ensures numTypes < |histograms| ==> histograms[numTypes] == Zeros(c.alphabet)
    {
      hide State.Splits, State.Current, State.LastFrom, Add, Difference;
      CurrentEnd(c, Now(), history, r);
      Room(c, Now(), history, r);
      DifferencesAre(c, Now(), history, p);
      var sum0, sum1 := Add(histograms[last0], curr), Add(histograms[last1], curr);
      var diff0, diff1 := c.entropy(sum0) - entropy - lastEntropy0, c.entropy(sum1) - entropy - lastEntropy1;
      if numTypes < c.maxTypes && diff0 > c.splitThreshold && diff1 > c.splitThreshold {
        NewType(n, entropy, r);
        mergeLastCount, targetBlockSize := 0, c.minBlockSize;
      } else if diff1 < diff0 - 20.0 {
        assert numBlocks != 1;
        MergeSecond(n, sum1, r);
      } else {
        MergeLast(n, sum0, r);
      }
    }

    method NewType(n: nat, entropy: real, ghost r: nat)
      requires Now().Splits(c, history, r, 0) && Now().Current(c, history, r) && |history| <= r + n
               && c.minBlockSize <= n && numTypes < c.maxTypes
      requires currHistogramIdx == numTypes && numBlocks < |types| == |lengths|
               && entropy == c.entropy(histograms[numTypes])
      modifies this
      ensures history == old(history) && blockSize == 0 && currHistogramIdx == numTypes
              && targetBlockSize == old(targetBlockSize) && mergeLastCount == old(mergeLastCount)
      ensures numBlocks == old(numBlocks) + 1 <= |types| == |lengths| && numTypes == old(numTypes) + 1
              && types[..numBlocks] == old(types[..numBlocks]) + [old(numTypes)]
              && lengths[..numBlocks] == old(lengths[..numBlocks]) + [n]
      ensures Now().LastFrom(r) && Now().Splits(c, history, |history|, r + n - |history|)
      ensures numTypes < |histograms| ==> histograms[numTypes] == Zeros(c.alphabet)
    {
      hide State.Splits, Append, State.LastFrom, State.Current;
      ghost var was := Now();
      ghost var s' := Append(was, numTypes, n).(numTypes := numTypes + 1,
        last0 := numTypes, last1 := if numBlocks == 0 then 0 else last0,
        lastEntropy0 := entropy, lastEntropy1 := if numBlocks == 0 then entropy else lastEntropy0);
      NewTypeSplits(c, was, history, r, n, s');
      AppendIs(was, numTypes, n);
      FirstType(c, was, history, r);
      Record(n, entropy);
      assert Now() == s';
      if currHistogramIdx < |histograms| {
        ClearCurrent(|history|, r + n - |history|);
        LastSame(s', Now(), r);
      }
    }

    /** Enters a block of a new type. */
    method Record(n: nat, entropy: real)
      requires numBlocks < |types| == |lengths| && (numBlocks == 0 ==> numTypes == 0)
      modifies this
      ensures types == old(types[numBlocks := numTypes]) && lengths == old(lengths)[old(numBlocks) := n]
              && numTypes == old(numTypes) + 1 && numBlocks == old(numBlocks) + 1 && histograms == old(histograms)
      ensures last0 == old(numTypes) && lastEntropy0 == entropy
              && last1 == (if old(numBlocks) == 0 then 0 else old(last0))
              && lastEntropy1 == if old(numBlocks) == 0 then entropy else old(lastEntropy0)
      ensures currHistogramIdx == old(currHistogramIdx) + 1 && blockSize == 0 && history == old(history)
              && targetBlockSize == old(targetBlockSize) && mergeLastCount == old(mergeLastCount)
    {
      lengths, types := lengths[numBlocks := n], types[numBlocks := numTypes];
      if numBlocks == 0 {
        lastEntropy0, lastEntropy1, last0, last1 := entropy, entropy, 0, 0;
      } else {
        lastEntropy0, lastEntropy1, last0, last1 := entropy, lastEntropy0, numTypes, last0;
      }
      numBlocks, numTypes, currHistogramIdx, blockSize := numBlocks + 1, numTypes + 1, currHistogramIdx + 1, 0;
    }

    method MergeSecond(n: nat, sum: Hist, ghost r: nat)
      requires Now().Splits(c, history, r, 0) && Now().Current(c, history, r) && |history| <= r + n
               && c.minBlockSize <= n
      requires currHistogramIdx == numTypes && 2 <= numBlocks < |types| == |lengths| && last1 < |histograms|
               && numTypes < |histograms| && last1 == types[numBlocks - 2]
      requires |histograms[last1]| == |histograms[numTypes]| && sum == Add(histograms[last1], histograms[numTypes])
      modifies this
      ensures history == old(history) && blockSize == 0 && currHistogramIdx == numTypes
              && targetBlockSize == c.minBlockSize && mergeLastCount == 0
      ensures numBlocks == old(numBlocks) + 1 <= |types| == |lengths| && numTypes == old(numTypes)
              && types[..numBlocks] == old(types[..numBlocks]) + [old(types[numBlocks - 2])]
              && lengths[..numBlocks] == old(lengths[..numBlocks]) + [n]
      ensures Now().LastFrom(r) && Now().Splits(c, history, |history|, r + n - |history|)
      ensures numTypes < |histograms| ==> histograms[numTypes] == Zeros(c.alphabet)
    {
      hide State.Splits, Append, Add, State.LastFrom, State.Current;
      ghost var was := Now();
      AppendIs(was, last1, n);
      lengths, types := lengths[numBlocks := n], types[numBlocks := types[numBlocks - 2]];
      last0, last1 := last1, last0;
      histograms := histograms[last0 := sum];
      lastEntropy0, lastEntropy1 := c.entropy(sum), lastEntropy0;
      numBlocks, blockSize, mergeLastCount, targetBlockSize := numBlocks + 1, 0, 0, c.minBlockSize;
      MergeSecondSplits(c, was, history, r, n, Now());
      ghost var was' := Now();
      ClearCurrent(|history|, r + n - |history|);
      LastSame(was', Now(), r);
    }

    method MergeLast(n: nat, sum: Hist, ghost r: nat)
      requires Now().Splits(c, history, r, 0) && Now().Current(c, history, r) && |history| <= r + n
               && c.minBlockSize <= n
      requires currHistogramIdx == numTypes && 1 <= numBlocks < |types| == |lengths| && last0 < |histograms|
               && numTypes < |histograms|
      requires |histograms[last0]| == |histograms[numTypes]| && sum == Add(histograms[last0], histograms[numTypes])
      modifies this
      ensures history == old(history) && blockSize == 0 && currHistogramIdx == numTypes
              && mergeLastCount == old(mergeLastCount) + 1
      ensures targetBlockSize == if mergeLastCount > 1 then old(targetBlockSize) + c.minBlockSize
              else old(targetBlockSize)
      ensures numBlocks == old(numBlocks) <= |types| == |lengths| && types == old(types) && numTypes == old(numTypes)
              && lengths == old(lengths[numBlocks - 1 := lengths[numBlocks - 1] + n])
      ensures Now().LastFrom(r) && Now().Splits(c, history, |history|, r + n - |history|)
      ensures numTypes < |histograms| ==> histograms[numTypes] == Zeros(c.alphabet)
    {
      hide State.Splits, Add, State.LastFrom, State.Current;
      ghost var was := Now();
      lengths := lengths[numBlocks - 1 := lengths[numBlocks - 1] + n];
      histograms := histograms[last0 := sum];
      lastEntropy0 := c.entropy(sum);
      if numTypes == 1 { lastEntropy1 := lastEntropy0; }
      blockSize, mergeLastCount := 0, mergeLastCount + 1;
      MergeLastSplits(c, was, history, r, n, Now());
      ghost var was' := Now();
      ClearCurrent(|history|, r + n - |history|);
      LastSame(was', Now(), r);
      if mergeLastCount > 1 { targetBlockSize := targetBlockSize + c.minBlockSize; }
    }

    method ClearCurrent(ghost r: nat, ghost pad: nat)
      requires Now().Splits(c, history, r, pad) && currHistogramIdx == numTypes < |histograms|
      modifies this`histograms
      ensures Now() == old(Now()).(histograms := histograms)
      ensures Now().Splits(c, history, r, pad) && numTypes < |histograms| && histograms[numTypes] == Zeros(c.alphabet)
    {
      hide Tallied, Owners, Times, MaxBlocks;
      TallyOther(histograms, numTypes, history, c.alphabet, Now().Covered(), r, currHistogramIdx, Zeros(c.alphabet));
      histograms := histograms[currHistogramIdx := Zeros(c.alphabet)];
    }

    /** The end of the stream. The blocks cover it, and only the last reaches beyond it; each type's
        histogram counts exactly the symbols in blocks of that type. */
    method Finish()
      requires Valid()
      modifies this
      ensures history == old(history) && |types| == |lengths| == numBlocks > 0
              && |history| <= |Owners(types, lengths, numBlocks)| <= |history| + c.minBlockSize
      ensures |Owners(types, lengths, numBlocks - 1)| <= |history|
      ensures Tallied(histograms, numTypes, history, c.alphabet, Owners(types, lengths, numBlocks), |history|)
      ensures numTypes <= c.maxTypes && forall k :: 0 <= k < numBlocks ==> types[k] < numTypes
      ensures InAlphabet(history, c.alphabet)
      ensures var n := if old(blockSize) < c.minBlockSize then c.minBlockSize else old(blockSize);
              var p := Decide(c, history, Split(c, history), n); types == p.types && lengths == p.lengths
    {
      hide Tallied, Owners, Counted, MaxBlocks, Times, Split, Decide;
      ghost var n := blockSize;
      FinishBlock(|history| - blockSize, Split(c, history));
      OwnersSame(types, lengths, types[..numBlocks], lengths[..numBlocks], numBlocks);
      OwnersSame(types, lengths, types[..numBlocks], lengths[..numBlocks], numBlocks - 1);
      types, lengths := types[..numBlocks], lengths[..numBlocks];
    }
  }

  lemma LastSame(s: State, s': State, r: nat)
    requires s.LastFrom(r) && s' == s.(histograms := s'.histograms)
    ensures s'.LastFrom(r)
  {
  }

  lemma ConfigValid(c: Config, s: State, history: seq<nat>, r: nat)
    requires s.Splits(c, history, r, 0)
    ensures c.Valid()
  {
  }

  lemma AppendIs(s: State, t: nat, n: nat)
    requires s.numBlocks < |s.types| == |s.lengths|
    ensures Append(s, t, n) ==
            s.(types := s.types[s.numBlocks := t], lengths := s.lengths[s.numBlocks := n], numBlocks := s.numBlocks + 1)
  {
  }

  lemma CurrentEnd(c: Config, s: State, history: seq<nat>, r: nat)
    requires s.Current(c, history, r)
    ensures r <= |history| <= c.numSymbols
  {
  }

  lemma FirstType(c: Config, s: State, history: seq<nat>, r: nat)
    requires s.Splits(c, history, r, 0)
    ensures s.numBlocks == 0 <==> s.numTypes == 0
  {
  }

  lemma HistogramSizes(c: Config, s: State, history: seq<nat>, r: nat)
    requires s.Splits(c, history, r, 0) && s.Current(c, history, r)
    ensures |s.histograms[s.numTypes]| == c.alphabet
            && forall t :: 0 <= t < s.numTypes ==> |s.histograms[t]| == c.alphabet
  {
    hide Owned, Counted, Owners, Times, MaxBlocks;
  }

  /** A symbol goes to the current histogram. */
  lemma SymbolSplits(c: Config, s: State, history: seq<nat>, r: nat, x: nat)
    requires s.Splits(c, history, r, 0) && s.Current(c, history, r) && x < c.alphabet && |history| < c.numSymbols
    ensures |s.histograms[s.numTypes]| == c.alphabet
    ensures var s' := s.(histograms := s.histograms[s.numTypes := Bump(s.histograms[s.numTypes], x)]);
            s'.Splits(c, history + [x], r, 0) && s'.Current(c, history + [x], r)
  {
    hide Tallied, Owners, Times, MaxBlocks, Owned;
    var h := Bump(s.histograms[s.numTypes], x);
    CountedPrefix(history, history + [x], c.alphabet, r, |history|);
    TallyOther(s.histograms, s.numTypes, history, c.alphabet, s.Covered(), r, s.numTypes, h);
    TallyMore(s.histograms[s.numTypes := h], s.numTypes, history, x, c.alphabet, s.Covered(), r);
  }

  /** After a whole block the next one starts empty. */
  lemma StartBlock(c: Config, s: State, history: seq<nat>)
    requires s.Splits(c, history, |history|, 0) && |history| <= c.numSymbols
    requires s.numTypes < |s.histograms| ==> s.histograms[s.numTypes] == Zeros(c.alphabet)
    ensures s.Current(c, history, |history|)
  {
    hide Owners, Owned;
    Room(c, s, history, |history|);
  }
}
