/** The first pass of the quality 1 encoder: it cuts a block into literals and backward matches, and
    writes these as command words. Replaying the words gives the block back. */
module TwoPass {
  import opened Bits
  import RingBuffer
  import TreeHasher

  const MAX_DISTANCE := 0x4_0000 - 16
  const INPUT_MARGIN := 16
  const LAST_DISTANCE := 64     // the command "distance as before"

  // ---------- Command words ----------

  /** A word is a code in its low seven bits and extra bits above the eighth. */
  function Word(code: nat, extra: nat): nat { code + 256 * extra }
  function CodeOf(w: nat): nat { w % 128 }
  function ExtraOf(w: nat): nat { w / 256 }

  lemma WordParts(code: nat, extra: nat)
    requires code < 128
    ensures CodeOf(Word(code, extra)) == code && ExtraOf(Word(code, extra)) == extra
  {
    var w := Word(code, extra);
    assert w / 256 == extra && w % 256 == code;
    assert w % 128 == code by { assert w == 128 * (2 * extra) + code; }
  }

  /** The number of extra bits of each code, and the base lengths, as sections 4 and 5 of RFC 7932 give
      them for the codes of an insert, of a copy, and of a distance. */
  function InsertBits(code: nat): nat {
    match code
    case 0 => 0 case 1 => 0 case 2 => 0 case 3 => 0 case 4 => 0 case 5 => 0
    case 6 => 1 case 7 => 1 case 8 => 2 case 9 => 2 case 10 => 3 case 11 => 3
    case 12 => 4 case 13 => 4 case 14 => 5 case 15 => 5 case 16 => 6 case 17 => 7
    case 18 => 8 case 19 => 9 case 20 => 10 case 21 => 12 case 22 => 14 case _ => 24
  }

  function InsertOffset(code: nat): nat {
    match code
    case 0 => 0 case 1 => 1 case 2 => 2 case 3 => 3 case 4 => 4 case 5 => 5
    case 6 => 6 case 7 => 8 case 8 => 10 case 9 => 14 case 10 => 18 case 11 => 26
    case 12 => 34 case 13 => 50 case 14 => 66 case 15 => 98 case 16 => 130 case 17 => 194
    case 18 => 322 case 19 => 578 case 20 => 1090 case 21 => 2114 case 22 => 6210 case _ => 22594
  }

  function CopyBits(code: nat): nat {
    match code
    case 0 => 0 case 1 => 0 case 2 => 0 case 3 => 0 case 4 => 0 case 5 => 0
    case 6 => 0 case 7 => 0 case 8 => 1 case 9 => 1 case 10 => 2 case 11 => 2
    case 12 => 3 case 13 => 3 case 14 => 4 case 15 => 4 case 16 => 5 case 17 => 5
    case 18 => 6 case 19 => 7 case 20 => 8 case 21 => 9 case 22 => 10 case _ => 24
  }

  function CopyOffset(code: nat): nat {
    match code
    case 0 => 2 case 1 => 3 case 2 => 4 case 3 => 5 case 4 => 6 case 5 => 7
    case 6 => 8 case 7 => 9 case 8 => 10 case 9 => 12 case 10 => 14 case 11 => 18
    case 12 => 22 case 13 => 30 case 14 => 38 case 15 => 54 case 16 => 70 case 17 => 102
    case 18 => 134 case 19 => 198 case 20 => 326 case 21 => 582 case 22 => 1094 case _ => 2118
  }

  // ---------- Lengths in binary ----------

  /** The powers of two that the tables need. */
  /** A code for a number x at least 4: the position and the second digit of its binary form select it,
      the lower digits are its extra bits. */
  function Split(x: nat, base: nat): nat
    requires x >= 2
  {
    TopTwo(x);
    var n := Len(x) - 2;
    Word(2 * n + High(x, n) + base, Low(x, n))
  }

  /** The word of an insert length. */
  function InsertWord(n: nat): nat {
    if n < 6 then n
    else if n < 130 then Split(n - 2, 2)
    else if n < 2114 then LenBounds(n - 66); var k := Len(n - 66) - 1; Word(k + 10, n - 66 - Pow2(k))
    else if n < 6210 then Word(21, n - 2114)
    else if n < 22594 then Word(22, n - 6210)
    else Word(23, n - 22594)
  }

  /** The word of a copy length with a distance of its own. */
  function CopyWord(n: nat): nat
    requires n >= 4
  {
    if n < 10 then n + 38
    else if n < 134 then Split(n - 6, 44)
    else if n < 2118 then LenBounds(n - 70); var k := Len(n - 70) - 1; Word(k + 52, n - 70 - Pow2(k))
    else Word(63, n - 2118)
  }

  /** The words of a copy length whose first two bytes belong to the insert before it. */
  function LastDistanceWords(n: nat): seq<nat>
    requires n >= 4
  {
    if n < 12 then [n + 20]
    else if n < 72 then [Split(n - 8, 28)]
    else if n < 136 then [Word((n - 8) / 32 + 54, (n - 8) % 32), LAST_DISTANCE]
    else if n < 2120 then LenBounds(n - 72); var k := Len(n - 72) - 1; [Word(k + 52, n - 72 - Pow2(k)), LAST_DISTANCE]
    else [Word(63, n - 2120), LAST_DISTANCE]
  }

  /** The word of a distance. */
  function DistanceWord(d: nat): nat
    requires d >= 1
  {
    TopTwo(d + 3);
    var n := Len(d + 3) - 2;
    var prefix := High(d + 3, n) % 2;
    LenRange'(d + 3);
    Word(2 * (n - 1) + prefix + 80, d + 3 - (2 + prefix) * Pow2(n))
  }

  lemma LenRange'(x: nat)
    requires x >= 4
    ensures Len(x) >= 3
    ensures (2 + High(x, Len(x) - 2) % 2) * Pow2(Len(x) - 2) <= x
  {
    Powers();
    hide Len, Pow2, High, Low;
    LenBounds(x);
    if Len(x) < 3 { Pow2Monotone(Len(x), 2); }
    TopTwo(x);
    var h := High(x, Len(x) - 2);
    assert 2 + h % 2 == h;
  }

  // ---------- What words mean ----------

  ghost predicate IsInsert(w: nat, n: nat) {
    CodeOf(w) < 24 && InsertOffset(CodeOf(w)) + ExtraOf(w) == n && ExtraOf(w) < Pow2(InsertBits(CodeOf(w)))
  }

  /** A copy of n bytes from the last distance. */
  ghost predicate IsCopyLast(w: nat, n: nat) {
    24 <= CodeOf(w) < 40 && CopyOffset(CodeOf(w) - 24) + ExtraOf(w) == n && ExtraOf(w) < Pow2(CopyBits(CodeOf(w) - 24))
  }

  /** A copy of n bytes from the distance in the next word. */
  ghost predicate IsCopy(w: nat, n: nat) {
    40 <= CodeOf(w) < 64 && CopyOffset(CodeOf(w) - 40) + ExtraOf(w) == n && ExtraOf(w) < Pow2(CopyBits(CodeOf(w) - 40))
  }

  ghost predicate IsDistance(w: nat, d: nat) {
    80 <= CodeOf(w) && d == DistanceBase(CodeOf(w) - 80) + ExtraOf(w) && ExtraOf(w) < Pow2(1 + (CodeOf(w) - 80) / 2)
  }

  /** The least distance of code 16 + c, without postfix and direct codes. */
  function DistanceBase(c: nat): nat {
    Pow2Monotone(1, 1 + c / 2);
    (2 + c % 2) * Pow2(1 + c / 2) - 3
  }

  lemma SplitIs(x: nat, base: nat, b: nat)
    requires 4 <= x < Pow2(b) && 3 <= b <= 7 && base <= 60
    ensures var w := Split(x, base); var n := Len(x) - 2;
            && 1 <= n <= b - 2 && (CodeOf(w) == 2 * n + 2 + base || CodeOf(w) == 2 * n + 3 + base)
            && x == (CodeOf(w) - 2 * n - base) * Pow2(n) + ExtraOf(w) && ExtraOf(w) < Pow2(n)
  {
    Powers();
    hide Len, Pow2, High, Low, CodeOf, ExtraOf, Word;
    LenRange(x, 3, b);
    TopTwo(x);
    var n := Len(x) - 2;
    WordParts(2 * n + High(x, n) + base, Low(x, n));
  }

  /** The tables agree with the binary split: two codes for each number of extra bits. */
  lemma SplitTables(k: nat, p: nat)
    requires 1 <= k <= 5 && 2 <= p <= 3
    ensures InsertOffset(2 * k + p + 2) == p * Pow2(k) + 2 && InsertBits(2 * k + p + 2) == k
    ensures CopyOffset(2 * k + p + 4) == p * Pow2(k) + 6 && CopyBits(2 * k + p + 4) == k
  {
    hide Pow2;
    Powers();
    if k == 1 {
    } else if k == 2 {
    } else if k == 3 {
    } else if k == 4 {
    }
  }

  /** And one code for each number of extra bits further up. */
  lemma SingleTables(k: nat)
    requires 6 <= k <= 10
    ensures InsertOffset(k + 10) == Pow2(k) + 66 && InsertBits(k + 10) == k
    ensures CopyOffset(k + 12) == Pow2(k) + 70 && CopyBits(k + 12) == k
  {
    hide Pow2;
    Powers();
    if k == 6 {
    } else if k == 7 {
    } else if k == 8 {
    } else if k == 9 {
    }
  }

  /** The binary length of a number between 64 and 2047. */
  lemma SingleRange(x: nat)
    requires 64 <= x < 2048
    ensures var k := Len(x) - 1; 6 <= k <= 10 && Pow2(k) <= x < 2 * Pow2(k)
  {
    hide Len;
    Powers();
    LenBounds(x);
    LenRange(x, 7, 11);
  }

  lemma InsertMeans(n: nat)
    requires n < 22594 + Pow2(24)
    ensures IsInsert(InsertWord(n), n)
  {
    hide Len, High, Low, Pow2, Split, CodeOf, ExtraOf, Word;
    Powers();
    if n < 6 {
      PlainWord(n);
    } else if n < 130 {
      SplitIs(n - 2, 2, 7);
      var k := Len(n - 2) - 2;
      SplitTables(k, CodeOf(InsertWord(n)) - 2 * k - 2);
    } else if n < 2114 {
      SingleRange(n - 66);
      var k := Len(n - 66) - 1;
      WordParts(k + 10, n - 66 - Pow2(k));
      SingleTables(k);
    } else if n < 6210 {
      WordParts(21, n - 2114);
    } else if n < 22594 {
      WordParts(22, n - 6210);
    } else {
      WordParts(23, n - 22594);
    }
  }

  lemma PlainWord(c: nat)
    requires c < 128
    ensures CodeOf(c) == c && ExtraOf(c) == 0
  {
  }

  lemma CopyMeans(n: nat)
    requires 4 <= n < 2118 + Pow2(24)
    ensures IsCopy(CopyWord(n), n)
  {
    hide Len, High, Low, Pow2, Split, CodeOf, ExtraOf, Word;
    Powers();
    if n < 10 {
      PlainWord(n + 38);
    } else if n < 134 {
      SplitIs(n - 6, 44, 7);
      var k := Len(n - 6) - 2;
      SplitTables(k, CodeOf(CopyWord(n)) - 2 * k - 44);
    } else if n < 2118 {
      SingleRange(n - 70);
      var k := Len(n - 70) - 1;
      WordParts(k + 52, n - 70 - Pow2(k));
      SingleTables(k);
    } else {
      WordParts(63, n - 2118);
    }
  }

  /** One word that copies n - 2 bytes from the last distance. */
  lemma ShortLastDistanceMeans(n: nat)
    requires 4 <= n < 72
    ensures |LastDistanceWords(n)| == 1 && IsCopyLast(LastDistanceWords(n)[0], n - 2)
  {
    hide Len, High, Low, Pow2, Split, CodeOf, ExtraOf, Word;
    Powers();
    if n < 12 {
      PlainWord(n + 20);
    } else {
      SplitIs(n - 8, 28, 6);
      var k := Len(n - 8) - 2;
      SplitTables(k, CodeOf(LastDistanceWords(n)[0]) - 2 * k - 28);
    }
  }

  /** A copy of n - 2 bytes and the word for the last distance. */
  lemma LongLastDistanceMeans(n: nat)
    requires 72 <= n < 2120 + Pow2(24)
    ensures |LastDistanceWords(n)| == 2 && IsCopy(LastDistanceWords(n)[0], n - 2)
            && LastDistanceWords(n)[1] == LAST_DISTANCE
  {
    hide Len, High, Low, Pow2, Split, CodeOf, ExtraOf, Word;
    Powers();
    if n < 136 {
      WordParts((n - 8) / 32 + 54, (n - 8) % 32);
      SplitTables(5, (n - 8) / 32);
    } else if n < 2120 {
      SingleRange(n - 72);
      var k := Len(n - 72) - 1;
      WordParts(k + 52, n - 72 - Pow2(k));
      SingleTables(k);
    } else {
      WordParts(63, n - 2120);
    }
  }

  lemma DistanceMeans(d: nat)
    requires 1 <= d <= MAX_DISTANCE
    ensures IsDistance(DistanceWord(d), d)
  {
    hide Len, Pow2, Low, High, CodeOf, ExtraOf, Word;
    Powers();
    Pow2Add(12, 7);
    LenRange(d + 3, 3, 19);
    TopTwo(d + 3);
    var n := Len(d + 3) - 2;
    var h := High(d + 3, n);
    assert 2 + h % 2 == h;
    var c := 2 * (n - 1) + h % 2;
    assert c / 2 == n - 1 && c % 2 == h % 2;
    LenRange'(d + 3);
    WordParts(c + 80, d + 3 - h * Pow2(n));
  }

  // ---------- Replaying command words ----------

  /** What a decoder holds between two words: its output, the last distance, the length of a copy that
      waits for its distance (none if zero), and the number of literals used. */
  datatype Player = Player(out: seq<byte>, last: int, pending: nat, used: nat) | Broken

  ghost function Copy(p: Player, d: int, n: nat): Player
    requires p.Player?
  {
    if 1 <= d <= |p.out| && d <= MAX_DISTANCE then Player(RingBuffer.Extend(p.out, d, n), d, 0, p.used) else Broken
  }

  /** One word. An insert copies its literals and then two bytes, from a distance that follows; codes 24
      to 39 copy from the last distance; codes 40 to 63 from a distance that follows. */
  ghost function Step(p: Player, w: nat, lits: seq<byte>): Player {
    var code, extra := CodeOf(w), ExtraOf(w);
    if p.Broken? then Broken
    else if code < 64 then
      if p.pending != 0 then Broken
      else if code < 24 then
        var n := InsertOffset(code) + extra;
        if p.used + n <= |lits| then Player(p.out + lits[p.used..p.used + n], p.last, 2, p.used + n) else Broken
      else if code < 40 then Copy(p, p.last, CopyOffset(code - 24) + extra)
      else p.(pending := CopyOffset(code - 40) + extra)
    else if p.pending == 0 then Broken
    else if code == LAST_DISTANCE then Copy(p, p.last, p.pending)
    else if code < 80 then Broken
    else Copy(p, DistanceBase(code - 80) + extra, p.pending)
  }

  ghost function Play(p: Player, words: seq<nat>, lits: seq<byte>): Player {
    if words == [] then p else Step(Play(p, words[..|words| - 1], lits), words[|words| - 1], lits)
  }

  lemma PlayNext(p: Player, words: seq<nat>, w: nat, lits: seq<byte>)
    ensures Play(p, words + [w], lits) == Step(Play(p, words, lits), w, lits)
  {
    assert (words + [w])[..|words|] == words;
  }

  /** Literals behind those in use do not matter. */
  lemma {:induction false} PlayMoreLiterals(p: Player, words: seq<nat>, lits: seq<byte>, more: seq<byte>)
    requires Play(p, words, lits).Player?
    ensures Play(p, words, lits + more) == Play(p, words, lits)
  {
    hide RingBuffer.Extend, CodeOf, ExtraOf, InsertOffset, CopyOffset, DistanceBase;
    if words != [] {
      var q := Play(p, words[..|words| - 1], lits);
      PlayMoreLiterals(p, words[..|words| - 1], lits, more);
      StepMoreLiterals(q, words[|words| - 1], lits, more);
    }
  }

  lemma StepMoreLiterals(q: Player, w: nat, lits: seq<byte>, more: seq<byte>)
    requires Step(q, w, lits).Player?
    ensures Step(q, w, lits + more) == Step(q, w, lits)
  {
    hide RingBuffer.Extend, InsertOffset, CopyOffset, DistanceBase;
    if CodeOf(w) < 24 && q.Player? {
      var n := InsertOffset(CodeOf(w)) + ExtraOf(w);
      assert q.used + n <= |lits| ==> (lits + more)[q.used..q.used + n] == lits[q.used..q.used + n];
    }
  }

  // ---------- Matches ----------

  /** The n bytes at position at repeat those d bytes before. */
  ghost predicate Repeats(input: seq<byte>, at: nat, d: nat, n: nat) {
    1 <= d <= at && at + n <= |input| && forall x :: at <= x < at + n ==> input[x] == input[x - d]
  }

  lemma {:induction false} RepeatsExtend(input: seq<byte>, at: nat, d: nat, n: nat)
    requires Repeats(input, at, d, n)
    ensures RingBuffer.Extend(input[..at], d, n) == input[..at + n]
    decreases n
  {
    if n > 0 {
      assert input[..at] + [input[..at][at - d]] == input[..at + 1];
      RepeatsExtend(input, at + 1, d, n - 1);
    }
  }

  lemma RepeatsSplit(input: seq<byte>, at: nat, d: nat, m: nat, n: nat)
    requires Repeats(input, at, d, m + n)
    ensures Repeats(input, at, d, m) && Repeats(input, at + m, d, n)
  {
  }

  /** A player that has produced the input up to e. */
  predicate Produced(p: Player, input: seq<byte>, e: nat, last: int, used: nat) {
    e <= |input| && p == Player(input[..e], last, 0, used)
  }

  lemma StepInsert(p: Player, w: nat, n: nat, lits: seq<byte>)
    requires IsInsert(w, n) && p.Player? && p.pending == 0 && p.used + n <= |lits|
    ensures Step(p, w, lits) == Player(p.out + lits[p.used..p.used + n], p.last, 2, p.used + n)
  {
    hide InsertOffset, CopyOffset, Pow2;
  }

  /** A copy whose distance word follows. */
  lemma StepCopy(p: Player, w: nat, n: nat, lits: seq<byte>)
    requires IsCopy(w, n) && p.Player? && p.pending == 0
    ensures Step(p, w, lits) == p.(pending := n)
  {
    hide InsertOffset, CopyOffset, Pow2;
  }

  lemma StepCopyLast(input: seq<byte>, e: nat, last: nat, used: nat, w: nat, n: nat, lits: seq<byte>)
    requires IsCopyLast(w, n) && Repeats(input, e, last, n) && last <= MAX_DISTANCE
    ensures Step(Player(input[..e], last, 0, used), w, lits) == Player(input[..e + n], last, 0, used)
  {
    hide InsertOffset, CopyOffset, Pow2, RingBuffer.Extend;
    RepeatsExtend(input, e, last, n);
  }

  /** The word of distance d, which is the short one if d is the last distance. */
  function DistanceWordAfter(last: int, d: nat): nat
    requires d >= 1
  {
    if d == last then LAST_DISTANCE else DistanceWord(d)
  }

  /** The word for the last distance. */
  lemma StepLastDistance(p: Player, lits: seq<byte>)
    requires p.Player? && p.pending != 0
    ensures Step(p, LAST_DISTANCE, lits) == Copy(p, p.last, p.pending)
  {
    hide InsertOffset, CopyOffset, DistanceBase, Copy;
    PlainWord(64);
  }

  lemma StepNewDistance(p: Player, w: nat, d: nat, lits: seq<byte>)
    requires p.Player? && p.pending != 0 && IsDistance(w, d)
    ensures Step(p, w, lits) == Copy(p, d, p.pending)
  {
    hide InsertOffset, CopyOffset, DistanceBase, Copy, Pow2;
  }

  lemma StepDistance(input: seq<byte>, e: nat, last: int, n: nat, used: nat, w: nat, d: nat, lits: seq<byte>)
    requires Repeats(input, e, d, n) && d <= MAX_DISTANCE && n > 0
             && ((w == LAST_DISTANCE && d == last) || w == DistanceWord(d))
    ensures Step(Player(input[..e], last, n, used), w, lits) == Player(input[..e + n], d, 0, used)
  {
    hide Step, DistanceWord, RingBuffer.Extend, IsDistance;
    RepeatsExtend(input, e, d, n);
    if w == LAST_DISTANCE && d == last {
      StepLastDistance(Player(input[..e], last, n, used), lits);
    } else {
      DistanceMeans(d);
      StepNewDistance(Player(input[..e], last, n, used), w, d, lits);
    }
  }

  /** The words for an insert and a match. */
  function MatchWords(insert: nat, last: int, d: nat, m: nat): seq<nat>
    requires d >= 1 && m >= 4
  {
    [InsertWord(insert), DistanceWordAfter(last, d)] + LastDistanceWords(m)
  }

  /** Insert, distance and copy produce the literals and the whole match. */
  lemma PlayMatch(p: Player, words: seq<nat>, lits: seq<byte>, input: seq<byte>, e: nat, last: int, insert: nat, d: nat,
                  m: nat)
    requires Produced(Play(p, words, lits), input, e, last, |lits|) && e + insert <= |input| <= Pow2(24)
    requires Repeats(input, e + insert, d, m) && 1 <= d <= MAX_DISTANCE && m >= 4
    ensures Produced(Play(p, words + MatchWords(insert, last, d, m), lits + input[e..e + insert]), input,
                     e + insert + m, d, |lits| + insert)
  {
    hide Play, Step, InsertWord, LastDistanceWords, DistanceWord, RingBuffer.Extend, Pow2, IsCopy, IsCopyLast, Repeats;
    var all := lits + input[e..e + insert];
    var u, at := |lits| + insert, e + insert;
    var w1, w2, ws := InsertWord(insert), DistanceWordAfter(last, d), LastDistanceWords(m);
    PlayLast(p, words, lits, input, e, last, insert);
    RepeatsSplit(input, at, d, 2, m - 2);
    PlayNext(p, words + [w1], w2, all);
    StepDistance(input, at, last, 2, u, w2, d, all);
    RepeatsInside(input, at, d, m);
    LastDistanceMeans(m);
    PlayRest(p, words + [w1] + [w2], ws, all, input, at + 2, d, m - 2, u);
    Joined(words, w1, w2, ws);
  }

  lemma RepeatsInside(input: seq<byte>, at: nat, d: nat, m: nat)
    requires Repeats(input, at, d, m)
    ensures at + m <= |input|
  {
  }

  lemma Joined(words: seq<nat>, w1: nat, w2: nat, ws: seq<nat>)
    ensures words + ([w1, w2] + ws) == words + [w1] + [w2] + ws
  {
  }

  lemma LastDistanceMeans(m: nat)
    requires 4 <= m < 2120 + Pow2(24)
    ensures IsRest(LastDistanceWords(m), m - 2)
  {
    hide Pow2, LastDistanceWords, IsCopy, IsCopyLast;
    if m < 72 { ShortLastDistanceMeans(m); } else { LongLastDistanceMeans(m); }
  }

  /** The words ws copy n bytes from the last distance. */
  ghost predicate IsRest(ws: seq<nat>, n: nat) {
    (|ws| == 1 && IsCopyLast(ws[0], n)) || (|ws| == 2 && IsCopy(ws[0], n) && ws[1] == LAST_DISTANCE)
  }

  /** The rest of a match, from the last distance. */
  lemma PlayRest(p: Player, words: seq<nat>, ws: seq<nat>, lits: seq<byte>, input: seq<byte>, at: nat, d: nat, n: nat,
                 used: nat)
    requires Produced(Play(p, words, lits), input, at, d, used) && Repeats(input, at, d, n) && d <= MAX_DISTANCE
             && n > 0
    requires IsRest(ws, n)
    ensures Produced(Play(p, words + ws, lits), input, at + n, d, used)
  {
    hide Play, Step, IsCopy, IsCopyLast, RingBuffer.Extend, DistanceWord;
    PlayNext(p, words, ws[0], lits);
    if |ws| == 1 {
      assert words + ws == words + [ws[0]];
      StepCopyLast(input, at, d, used, ws[0], n, lits);
    } else {
      StepCopy(Play(p, words, lits), ws[0], n, lits);
      PlayNext(p, words + [ws[0]], ws[1], lits);
      StepDistance(input, at, d, n, used, ws[1], d, lits);
      assert words + ws == words + [ws[0]] + [ws[1]];
    }
  }

  /** A match that follows another without literals between. */
  lemma PlayRepeat(p: Player, words: seq<nat>, lits: seq<byte>, input: seq<byte>, e: nat, last: int, d: nat, m: nat)
    requires Produced(Play(p, words, lits), input, e, last, |lits|) && |input| <= Pow2(24)
    requires Repeats(input, e, d, m) && d <= MAX_DISTANCE && m >= 4
    ensures Produced(Play(p, words + [CopyWord(m), DistanceWord(d)], lits), input, e + m, d, |lits|)
  {
    hide Play, Step, CopyWord, DistanceWord, RingBuffer.Extend, Pow2, IsCopy;
    CopyMeans(m);
    PlayNext(p, words, CopyWord(m), lits);
    StepCopy(Play(p, words, lits), CopyWord(m), m, lits);
    PlayNext(p, words + [CopyWord(m)], DistanceWord(d), lits);
    StepDistance(input, e, last, m, |lits|, DistanceWord(d), d, lits);
    assert words + [CopyWord(m), DistanceWord(d)] == words + [CopyWord(m)] + [DistanceWord(d)];
  }

  /** The literals behind the last match; the copy of this insert lies behind the end of the block. */
  lemma PlayLast(p: Player, words: seq<nat>, lits: seq<byte>, input: seq<byte>, e: nat, last: int, insert: nat)
    requires Produced(Play(p, words, lits), input, e, last, |lits|) && e + insert <= |input| <= Pow2(24)
    ensures Play(p, words + [InsertWord(insert)], lits + input[e..e + insert]) ==
            Player(input[..e + insert], last, 2, |lits| + insert)
  {
    hide Play, Step, InsertWord, Pow2, IsInsert;
    var more := input[e..e + insert];
    PlayMoreLiterals(p, words, lits, more);
    InsertMeans(insert);
    var all := lits + more;
    PlayNext(p, words, InsertWord(insert), all);
    StepInsert(Play(p, words, all), InsertWord(insert), insert, all);
    assert all[|lits|..|lits| + insert] == more && input[..e] + more == input[..e + insert];
  }

  // ---------- Emitting words and literals ----------

  /** How often code c occurs. */
  ghost function Count(words: seq<nat>, c: nat): nat {
    if words == [] then 0
    else Count(words[..|words| - 1], c) + if CodeOf(words[|words| - 1]) == c then 1 else 0
  }

  lemma CountNext(words: seq<nat>, w: nat, c: nat)
    ensures Count(words + [w], c) == Count(words, c) + if CodeOf(w) == c then 1 else 0
  {
    assert (words + [w])[..|words|] == words;
  }

  ghost predicate Histogram(h: seq<nat>, words: seq<nat>) {
    |h| == 128 && forall c :: 0 <= c < 128 ==> h[c] == Count(words, c)
  }

  lemma HistogramNext(h: seq<nat>, words: seq<nat>, w: nat)
    requires Histogram(h, words)
    ensures Histogram(h[CodeOf(w) := h[CodeOf(w)] + 1], words + [w])
  {
    hide CodeOf, Count;
    CodeSmall(w);
    forall c | 0 <= c < 128
      ensures h[CodeOf(w) := h[CodeOf(w)] + 1][c] == Count(words + [w], c)
    {
      CountNext(words, w, c);
    }
  }

  lemma CodeSmall(w: nat)
    ensures CodeOf(w) < 128
  {
  }

  /** The buffers of the first pass and its running histogram. */
  class Emitter {
    const commands: array<nat>
    const literals: array<byte>
    const histo: array<nat>
    var cmdPos: nat
    var litPos: nat
    ghost var words: seq<nat>
    ghost var lits: seq<byte>

    ghost predicate Valid() reads this, commands, literals, histo {
      && commands != histo && literals as object != commands && literals as object != histo
      && cmdPos <= commands.Length && commands[..cmdPos] == words && histo.Length == 128 && Histogram(histo[..], words)
      && litPos <= literals.Length && literals[..litPos] == lits
    }

    constructor (commandBuf: array<nat>, literalBuf: array<byte>)
      requires literalBuf as object != commandBuf
      ensures Valid() && words == [] && lits == [] && commands == commandBuf && literals == literalBuf && fresh(histo)
    {
      commands, literals := commandBuf, literalBuf;
      histo := new nat[128](_ => 0);
      cmdPos, litPos, words, lits := 0, 0, [], [];
    }

    lemma Contents()
      requires Valid()
      ensures cmdPos <= commands.Length && litPos <= literals.Length && commands[..cmdPos] == words
              && literals[..litPos] == lits
    {
    }

    lemma Lengths()
      requires Valid()
      ensures cmdPos == |words| && litPos == |lits| && cmdPos <= commands.Length && litPos <= literals.Length
    {
    }

    method Put(w: nat)
      requires Valid() && cmdPos < commands.Length
      modifies this`cmdPos, this`words, commands, histo
      ensures Valid() && words == old(words) + [w]
    {
      hide CodeOf, Histogram;
      CodeSmall(w);
      HistogramNext(histo[..], words, w);
      ghost var h := histo[..];
      commands[cmdPos] := w;
      histo[CodeOf(w)] := histo[CodeOf(w)] + 1;
      assert histo[..] == h[CodeOf(w) := h[CodeOf(w)] + 1];
      cmdPos := cmdPos + 1;
      words := words + [w];
    }

    /** Copies n literals. Between matches up to 16 are copied by one fixed-size store, which may write more. */
    method PutLiterals(input: seq<byte>, from: nat, n: nat, wide: bool)
      requires Valid() && litPos + n <= literals.Length && from + n <= |input| && (wide ==> from + 16 <= |input|)
      modifies this`litPos, this`lits, literals
      ensures Valid() && lits == old(lits) + input[from..from + n]
    {
      hide Histogram;
      var p := litPos;
      if wide && n <= 16 && litPos + 16 <= literals.Length {
        forall i | p <= i < p + 16 { literals[i] := input[i - p + from]; }
      } else {
        forall i | p <= i < p + n { literals[i] := input[i - p + from]; }
      }
      assert histo[..] == old(histo[..]) && commands[..] == old(commands[..]);
      assert literals[..p] == lits;
      ghost var a, b := literals[p..p + n], input[from..from + n];
      forall j | 0 <= j < |a|
        ensures a[j] == b[j]
      {
        assert literals[p + j] == input[from + j];
      }
      assert a == b;
      assert literals[..p + n] == literals[..p] + literals[p..p + n];
      litPos := litPos + n;
      lits := lits + input[from..from + n];
    }

    /** An insert with its literals, a distance, and one or two words for the copy. */
    method PutMatch(input: seq<byte>, from: nat, insert: nat, last: int, distance: nat, m: nat)
      requires Valid() && litPos + insert <= literals.Length && from + insert <= |input| && from + 16 <= |input|
      requires distance >= 1 && m >= 4 && cmdPos + 2 + |LastDistanceWords(m)| <= commands.Length
      modifies this, commands, literals, histo
      ensures Valid() && words == old(words) + MatchWords(insert, last, distance, m)
              && lits == old(lits) + input[from..from + insert]
    {
      hide Valid, InsertWord, LastDistanceWords, DistanceWordAfter;
      ghost var was := words;
      Lengths();
      LastDistanceCount(m);
      Put(InsertWord(insert));
      PutLiterals(input, from, insert, true);
      Lengths();
      Put(DistanceWordAfter(last, distance));
      var ws := LastDistanceWords(m);
      Lengths();
      Put(ws[0]);
      if |ws| > 1 {
        Lengths();
        Put(ws[1]);
        assert ws == [ws[0]] + [ws[1]];
      } else {
        assert ws == [ws[0]];
      }
      Joined(was, InsertWord(insert), DistanceWordAfter(last, distance), ws);
    }

    /** Starts a block. */
    method Clear()
      requires Valid()
      modifies this, histo
      ensures Valid() && words == [] && lits == []
    {
      forall c | 0 <= c < 128 { histo[c] := 0; }
      cmdPos, litPos, words, lits := 0, 0, [], [];
    }
  }

  // ---------- What a scan finds ----------

  /** The positions that a scan looks at: the k-th step is one longer for every 32 steps before. */
  ghost function Probe(start: nat, k: nat): nat { if k == 0 then start else Probe(start, k - 1) + (31 + k) / 32 }

  lemma {:induction false} ProbesGrow(start: nat, j: nat, k: nat)
    requires j <= k
    ensures Probe(start, j) + (k - j) <= Probe(start, k)
    decreases k
  {
    if j < k { ProbesGrow(start, j, k - 1); }
  }

  /** The input, the least length of a match, and the slot of the bytes at each position. */
  datatype Search = Search(input: seq<byte>, minMatch: nat, hash: nat -> nat)
  {
    ghost predicate Slots(t: seq<nat>) { forall i :: hash(i) < |t| }

    /** Two positions have the same first bytes. */
    ghost predicate Same(a: int, b: int) {
      && 0 <= a && a + minMatch <= |input| && 0 <= b && b + minMatch <= |input|
      && input[a..a + minMatch] == input[b..b + minMatch]
    }

    /** There is a match at ip with the earlier position c. */
    ghost predicate Matches(ip: nat, c: int) { 0 <= c < ip && ip - c <= MAX_DISTANCE && Same(ip, c) }

    /** The candidate that is taken at a position: the one at the last distance, else the one in the table; -1 if
        neither is a match. (A last distance outside the window, which no match leaves, would hide the one in the
        table.) */
    ghost function Choice(t: seq<nat>, ip: nat, last: int): (c: int)
      requires Slots(t)
      ensures c == -1 || Matches(ip, c)
    {
      if Matches(ip, ip - last) then ip - last
      else if Matches(ip, t[hash(ip)]) && !(last > MAX_DISTANCE && Same(ip, ip - last)) then t[hash(ip)] else -1
    }

    /** The table after the first k positions of a scan have been entered. */
    ghost function TableAt(t: seq<nat>, start: nat, k: nat): (r: seq<nat>)
      requires Slots(t)
      ensures |r| == |t|
    {
      if k == 0 then t else TableAt(t, start, k - 1)[hash(Probe(start, k - 1)) := Probe(start, k - 1)]
    }

    /** Nothing is found at the first k positions. */
    ghost predicate Nothing(t: seq<nat>, start: nat, last: int, k: nat)
      requires Slots(t)
    {
      forall j :: 0 <= j < k ==> Choice(TableAt(t, start, j), Probe(start, j), last) == -1
    }

    /** The scan finds a match at its k-th position, the first where there is one. The step behind it does not go
        past the limit. */
    ghost predicate Finds(t: seq<nat>, start: nat, limit: nat, last: int, k: nat, ip: nat, c: nat, t': seq<nat>) {
      && Slots(t) && Nothing(t, start, last, k) && ip == Probe(start, k) && Probe(start, k + 1) <= limit
      && c == Choice(TableAt(t, start, k), ip, last) && t' == TableAt(t, start, k + 1)
    }

    /** It finds none at the k positions that it looks at. */
    ghost predicate Misses(t: seq<nat>, start: nat, limit: nat, last: int, k: nat, t': seq<nat>) {
      && Slots(t) && Nothing(t, start, last, k) && Probe(start, k + 1) > limit && (k > 0 ==> Probe(start, k) <= limit)
      && t' == TableAt(t, start, k)
    }

    /** A match that ends at the end of the block, or in front of a byte that differs. */
    ghost predicate Maximal(ip: nat, c: nat, m: nat, end: nat) {
      && ip + m <= end <= |input| && c < ip && Repeats(input, ip, ip - c, m)
      && (ip + m == end || input[ip + m] != input[c + m])
    }

    /** The table after positions at the end of a match have been entered. When the match before was not a match
        right behind another, the last but one byte's position goes to the slot of the bytes two before it. */
    ghost function Refreshed(t: seq<nat>, ip: nat, again: bool): (r: seq<nat>)
      requires Slots(t) && ip > minMatch >= 4
      ensures |r| == |t|
    {
      if minMatch == 4 then
        t[hash(ip - 3) := ip - 3][hash(ip - 2) := ip - 2][hash(if again then ip - 1 else ip - 3) := ip - 1]
      else
        t[hash(ip - 5) := ip - 5][hash(ip - 4) := ip - 4][hash(ip - 3) := ip - 3][hash(ip - 2) := ip - 2]
         [hash(ip - 1) := ip - 1]
    }
  }

  // ---------- The matches of a block ----------

  /** A match at position at; again if it stands right behind the one before. */
  datatype Found = Found(at: nat, candidate: nat, length: nat, again: bool)

  /** Where the first k matches end. */
  ghost function EndOf(f: seq<Found>, pos: nat, k: nat): nat
    requires k <= |f|
  {
    if k == 0 then pos else f[k - 1].at + f[k - 1].length
  }

  /** The distance of the last of the first k matches. */
  ghost function LastOf(f: seq<Found>, k: nat): int
    requires k <= |f|
  {
    if k == 0 then -1 else f[k - 1].at - f[k - 1].candidate
  }

  /** The matches in order, and the table before each and at the end. */
  datatype Trace = Trace(found: seq<Found>, tables: seq<seq<nat>>)

  /** What decides about the matches of the block from pos to end. */
  datatype Scanner = Scanner(s: Search, pos: nat, limit: nat, end: nat)
  {
    /** The candidate right behind the first k matches, and the table after it was looked up. */
    ghost function Behind(f: seq<Found>, k: nat, t: seq<nat>): (seq<nat>, nat)
      requires 0 < k <= |f| && s.Slots(t) && EndOf(f, pos, k) > s.minMatch >= 4
    {
      var e := EndOf(f, pos, k);
      var r := s.Refreshed(t, e, f[k - 1].again);
      (r[s.hash(e) := e], r[s.hash(e)])
    }

    ghost predicate CanFollow(f: seq<Found>, k: nat, t: seq<nat>) {
      0 < k <= |f| && s.Slots(t) && limit > EndOf(f, pos, k) > s.minMatch >= 4
    }

    /** The table from which the scan behind the first k matches starts: there is no match right behind them. */
    ghost predicate ScansFrom(f: seq<Found>, k: nat, t: seq<nat>, u: seq<nat>) {
      if k == 0 then u == t
      else CanFollow(f, k, t) && u == Behind(f, k, t).0 && !s.Matches(EndOf(f, pos, k), Behind(f, k, t).1)
    }

    /** Match number k is the one right behind the match before if there is one, and otherwise the first that the
        scan finds; it is as long as it can be. */
    ghost predicate Step(tr: Trace, k: nat)
      requires k < |tr.found| && |tr.tables| == |tr.found| + 1
    {
      var f, t, x := tr.found, tr.tables[k], tr.found[k];
      var e := EndOf(f, pos, k);
      && s.Maximal(x.at, x.candidate, x.length, end) && x.length >= s.minMatch
      && (x.again ==>
            && CanFollow(f, k, t) && x.at == e && (tr.tables[k + 1], x.candidate) == Behind(f, k, t)
            && s.Matches(e, x.candidate))
      && (!x.again ==> Scanned(f, k, t, x, tr.tables[k + 1]))
    }

    ghost predicate Scanned(f: seq<Found>, k: nat, t: seq<nat>, x: Found, t': seq<nat>)
      requires k <= |f|
    {
      exists u, j :: ScanFinds(f, k, t, u, j, x, t')
    }

    /** A scan behind the first k matches finds x at its j-th position. */
    ghost predicate ScanFinds(f: seq<Found>, k: nat, t: seq<nat>, u: seq<nat>, j: nat, x: Found, t': seq<nat>)
      requires k <= |f|
    {
      ScansFrom(f, k, t, u) && s.Finds(u, EndOf(f, pos, k) + 1, limit, LastOf(f, k), j, x.at, x.candidate, t')
    }

    /** A scan behind the first k matches finds nothing at j positions. */
    ghost predicate ScanMisses(f: seq<Found>, k: nat, t: seq<nat>, u: seq<nat>, j: nat, t': seq<nat>)
      requires k <= |f|
    {
      ScansFrom(f, k, t, u) && s.Misses(u, EndOf(f, pos, k) + 1, limit, LastOf(f, k), j, t')
    }

    ghost predicate Follows(tr: Trace) {
      |tr.tables| == |tr.found| + 1 && forall k :: 0 <= k < |tr.found| ==> Step(tr, k)
    }

    /** Behind the last match the limit is reached, or a scan finds nothing; t is the table then. */
    ghost predicate Stops(tr: Trace, t: seq<nat>)
      requires |tr.tables| == |tr.found| + 1
    {
      var k := |tr.found|;
      || (k > 0 && EndOf(tr.found, pos, k) >= limit && t == tr.tables[k])
      || exists u, j :: ScanMisses(tr.found, k, tr.tables[k], u, j, t)
    }
  }

  /** The words of the matches, each with the literals since the one before. */
  ghost function WordsOf(f: seq<Found>, pos: nat): seq<nat> {
    if f == [] then [] else
      var k := |f| - 1;
      var x := f[k];
      if x.at <= x.candidate || x.length < 4 then []
      else if x.again then WordsOf(f[..k], pos) + [CopyWord(x.length), DistanceWord(x.at - x.candidate)]
      else if x.at < EndOf(f, pos, k) then []
      else
        var d := x.at - x.candidate;
        WordsOf(f[..k], pos)
          + [InsertWord(x.at - EndOf(f, pos, k)), if d == LastOf(f, k) then 64 else DistanceWord(d)]
          + LastDistanceWords(x.length)
  }

  ghost function LiteralsOf(input: seq<byte>, f: seq<Found>, pos: nat): seq<byte> {
    if f == [] then [] else
      var k := |f| - 1;
      var e := EndOf(f, pos, k);
      LiteralsOf(input, f[..k], pos) + if e <= f[k].at <= |input| then input[e..f[k].at] else []
  }

  /** One match more. */
  lemma AddFound(c: Scanner, tr: Trace, x: Found, t: seq<nat>)
    requires c.Follows(tr)
    requires var n := Trace(tr.found + [x], tr.tables + [t]); c.Step(n, |tr.found|)
    ensures c.Follows(Trace(tr.found + [x], tr.tables + [t]))
  {
    hide Search.Maximal, Search.Finds, Search.Refreshed, Search.Slots, Search.Matches;
    var n := Trace(tr.found + [x], tr.tables + [t]);
    forall k | 0 <= k < |tr.found|
      ensures c.Step(n, k)
    {
      StepStill(c, tr, n, k);
    }
  }

  lemma StepStill(c: Scanner, tr: Trace, n: Trace, k: nat)
    requires k < |tr.found| && |tr.tables| == |tr.found| + 1 && |n.tables| == |n.found| + 1 && c.Step(tr, k)
    requires tr.found <= n.found && tr.tables <= n.tables
    ensures c.Step(n, k)
  {
    hide Search.Maximal, Search.Finds, Search.Refreshed, Search.Slots, Search.Matches;
    assert n.tables[k] == tr.tables[k] && n.tables[k + 1] == tr.tables[k + 1] && n.found[k] == tr.found[k];
    if k > 0 { assert n.found[k - 1] == tr.found[k - 1]; }
    var x, t, t' := tr.found[k], tr.tables[k], tr.tables[k + 1];
    if !x.again {
      var u, j :| c.ScanFinds(tr.found, k, t, u, j, x, t');
      assert c.ScanFinds(n.found, k, t, u, j, x, t');
    }
  }

  /** The table is the one behind the last match. */
  ghost predicate EndsAt(tr: Trace, t: seq<nat>) { |tr.tables| == |tr.found| + 1 && tr.tables[|tr.found|] == t }

  lemma FollowsSize(c: Scanner, tr: Trace)
    requires c.Follows(tr)
    ensures |tr.tables| == |tr.found| + 1
  {
  }

  lemma NoMatches(c: Scanner, input: seq<byte>, tr: Trace)
    requires tr.found == [] && |tr.tables| == 1
    ensures c.Follows(tr) && c.ScansFrom(tr.found, 0, tr.tables[0], tr.tables[0])
    ensures WordsOf(tr.found, c.pos) == [] && LiteralsOf(input, tr.found, c.pos) == []
  {
  }

  lemma IsAgain(c: Scanner, tr: Trace, x: Found, t': seq<nat>)
    requires c.Follows(tr) && tr.found != [] && x.again && x.length >= c.s.minMatch
    requires c.s.Maximal(x.at, x.candidate, x.length, c.end) && x.at == EndOf(tr.found, c.pos, |tr.found|)
    requires c.CanFollow(tr.found, |tr.found|, tr.tables[|tr.found|])
             && (t', x.candidate) == c.Behind(tr.found, |tr.found|, tr.tables[|tr.found|])
    requires c.s.Matches(x.at, x.candidate)
    ensures var n := Trace(tr.found + [x], tr.tables + [t']); |n.tables| == |n.found| + 1 && c.Step(n, |tr.found|)
  {
    hide Search.Maximal, Search.Refreshed, Search.Matches;
  }

  lemma IsFound(c: Scanner, tr: Trace, x: Found, u: seq<nat>, j: nat, t': seq<nat>)
    requires c.Follows(tr) && !x.again && x.length >= c.s.minMatch && c.s.Maximal(x.at, x.candidate, x.length, c.end)
    requires c.ScansFrom(tr.found, |tr.found|, tr.tables[|tr.found|], u)
    requires c.s.Finds(u, EndOf(tr.found, c.pos, |tr.found|) + 1, c.limit, LastOf(tr.found, |tr.found|), j, x.at,
                       x.candidate, t')
    ensures var n := Trace(tr.found + [x], tr.tables + [t']); |n.tables| == |n.found| + 1 && c.Step(n, |tr.found|)
  {
    hide Search.Maximal, Search.Refreshed, Search.Matches, Search.Finds;
    var n, k := Trace(tr.found + [x], tr.tables + [t']), |tr.found|;
    assert c.ScanFinds(n.found, k, n.tables[k], u, j, x, t');
  }

  lemma StopsThere(c: Scanner, tr: Trace, u: seq<nat>, j: nat, t': seq<nat>)
    requires |tr.tables| == |tr.found| + 1
    requires c.ScansFrom(tr.found, |tr.found|, tr.tables[|tr.found|], u)
    requires c.s.Misses(u, EndOf(tr.found, c.pos, |tr.found|) + 1, c.limit, LastOf(tr.found, |tr.found|), j, t')
    ensures c.Stops(tr, t')
  {
    assert c.ScanMisses(tr.found, |tr.found|, tr.tables[|tr.found|], u, j, t');
  }

  lemma WordsNext(input: seq<byte>, f: seq<Found>, pos: nat, x: Found)
    requires x.at > x.candidate && x.length >= 4 && EndOf(f, pos, |f|) <= x.at <= |input|
             && (x.again ==> x.at == EndOf(f, pos, |f|))
    ensures WordsOf(f + [x], pos) == WordsOf(f, pos) +
              if x.again then [CopyWord(x.length), DistanceWord(x.at - x.candidate)]
              else MatchWords(x.at - EndOf(f, pos, |f|), LastOf(f, |f|), x.at - x.candidate, x.length)
    ensures LiteralsOf(input, f + [x], pos) == LiteralsOf(input, f, pos) + input[EndOf(f, pos, |f|)..x.at]
  {
    hide CopyWord, DistanceWord, MatchWords, InsertWord, LastDistanceWords;
    SameEnd(f, pos, x);
    MatchWordsAre(WordsOf(f, pos), x.at - EndOf(f, pos, |f|), LastOf(f, |f|), x.at - x.candidate, x.length);
    assert (f + [x])[..|f|] == f && (f + [x])[|f|] == x && |f + [x]| - 1 == |f|;
    LiteralsNext(input, f, pos, x);
    hide LiteralsOf, EndOf, LastOf;
  }

  lemma MatchWordsAre(words: seq<nat>, insert: nat, last: int, d: nat, m: nat)
    requires d >= 1 && m >= 4
    ensures words + MatchWords(insert, last, d, m) ==
              words + [InsertWord(insert), if d == last then 64 else DistanceWord(d)] + LastDistanceWords(m)
  {
    hide InsertWord, LastDistanceWords, DistanceWord;
  }

  lemma SameEnd(f: seq<Found>, pos: nat, x: Found)
    ensures EndOf(f + [x], pos, |f|) == EndOf(f, pos, |f|) && LastOf(f + [x], |f|) == LastOf(f, |f|)
  {
  }

  lemma LiteralsNext(input: seq<byte>, f: seq<Found>, pos: nat, x: Found)
    requires EndOf(f, pos, |f|) <= x.at <= |input|
    ensures LiteralsOf(input, f + [x], pos) == LiteralsOf(input, f, pos) + input[EndOf(f, pos, |f|)..x.at]
  {
    SameEnd(f, pos, x);
    assert (f + [x])[..|f|] == f;
    hide EndOf;
  }

  // ---------- The scan ----------

  class FirstPass {
    const input: seq<byte>
    const minMatch: nat
    const hash: nat -> nat       // slot of the bytes at a position
    const table: array<nat>      // latest position seen for each slot
    const e: Emitter

    ghost predicate Valid() reads this, table, e, e.commands, e.literals, e.histo {
      && (minMatch == 4 || minMatch == 6) && |input| <= Pow2(24) && (forall i :: hash(i) < table.Length)
      && table != e.commands && table != e.histo && e.literals as object != table && e.Valid()
    }

    /** A fragment starts with an empty table. Tables up to 2^15 slots take matches of four bytes. */
    constructor (fragment: seq<byte>, tableBits: nat, slots: array<nat>, hashOf: nat -> nat, emitter: Emitter)
      requires emitter.Valid() && |fragment| <= Pow2(24) && slots.Length == Pow2(tableBits)
               && (forall i :: hashOf(i) < slots.Length)
      requires slots != emitter.commands && slots != emitter.histo && emitter.literals as object != slots
      modifies slots
      ensures Valid() && Before(1) && input == fragment && table == slots && e == emitter
    {
      input, minMatch, hash, table, e := fragment, if tableBits <= 15 then 4 else 6, hashOf, slots, emitter;
      new;
      forall k | 0 <= k < slots.Length { slots[k] := 0; }
    }

    ghost function Rules(): Search { Search(input, minMatch, hash) }

    /** Every position in the table lies before end. */
    ghost predicate Before(end: nat) reads table { forall k :: 0 <= k < table.Length ==> table[k] < end }

    predicate IsMatch(a: nat, b: nat)
      requires a + minMatch <= |input| && b + minMatch <= |input|
    {
      input[a..a + minMatch] == input[b..b + minMatch]
    }

    /** A usable match: its first bytes agree and its distance fits the window. */
    ghost predicate Usable(candidate: nat, ip: nat) {
      candidate < ip && ip - candidate <= MAX_DISTANCE && ip + 8 <= |input| && minMatch <= 8 && IsMatch(ip, candidate)
    }

    /** Scans for the next match, in steps that grow with the distance from the start: it finds the first position of
        the schedule with a match, and none only if there is none. */
    method FindMatch(start: nat, limit: nat, lastDistance: int)
      returns (ip: nat, candidate: nat, found: bool, ghost k: nat)
      requires Valid() && Before(start) && limit + 16 <= |input| && start <= limit + 1
      modifies table
      ensures Valid() && e.Valid()
      ensures found ==> start <= ip < limit && Usable(candidate, ip) && Before(ip + 1)
      ensures found ==> Rules().Finds(old(table[..]), start, limit, lastDistance, k, ip, candidate, table[..])
      ensures !found ==> Before(limit + 1) && Rules().Misses(old(table[..]), start, limit, lastDistance, k, table[..])
    {
      hide Histogram, Emitter.Valid, Search.Choice;
      var skip, nextIP := 32, start;
      ip, candidate, found, k := start, 0, false, 0;
      ghost var r, t0 := Rules(), table[..];
      while true
        invariant Valid() && Before(nextIP) && start <= nextIP <= limit + 1 && skip == 32 + k
                  && nextIP == Probe(start, k)
        invariant table[..] == r.TableAt(t0, start, k) && r.Nothing(t0, start, lastDistance, k)
                  && (k > 0 ==> nextIP <= limit)
        decreases limit + 1 - nextIP
      {
        ip := nextIP;
        nextIP := ip + skip / 32;
        skip := skip + 1;
        if nextIP > limit { return 0, 0, false, k; }
        ghost var t := table[..];
        var slot := hash(ip);
        candidate, found := Take(slot, ip, lastDistance);
        if found { return; }
        k := k + 1;
      }
    }

    /** One position: it is entered in the table, whether there is a match or not. */
    method Take(slot: nat, ip: nat, lastDistance: int) returns (candidate: nat, found: bool)
      requires Valid() && Before(ip) && slot == hash(ip) && ip + 16 < |input|
      modifies table
      ensures Valid() && Before(ip + 1) && table[..] == old(table[..])[slot := ip]
      ensures Rules().Slots(old(table[..]))
      ensures found ==> candidate == Rules().Choice(old(table[..]), ip, lastDistance) && Usable(candidate, ip)
      ensures !found ==> Rules().Choice(old(table[..]), ip, lastDistance) == -1
    {
      hide Histogram, Emitter.Valid;
      ghost var t := table[..];
      var near: int := ip - lastDistance;
      candidate, found := 0, false;
      if 0 <= near < ip && IsMatch(ip, near) {
        SameBytes(ip, near);
        table[slot] := ip;
        if ip - near <= MAX_DISTANCE { candidate, found := near, true; }
      } else {
        if 0 <= near < ip { SameBytes(ip, near); }
        candidate := table[slot];
        SameBytes(ip, candidate);
        table[slot] := ip;
        found := IsMatch(ip, candidate) && ip - candidate <= MAX_DISTANCE;
      }
    }

    lemma SameBytes(a: nat, b: nat)
      requires a + minMatch <= |input| && b + minMatch <= |input|
      ensures IsMatch(a, b) <==> Rules().Same(a, b)
    {
    }

    /** Enters a position under the hash of the bytes at i. */
    method Store(i: nat, position: nat, ghost end: nat)
      requires Valid() && Before(end) && position < end
      modifies table
      ensures Valid() && Before(end) && table[..] == old(table[..])[hash(i) := position]
    {
      hide Histogram;
      table[hash(i)] := position;
    }

    lemma BeforeAt(end: nat, k: nat)
      requires Before(end) && k < table.Length
      ensures table[k] < end
    {
    }

    lemma BeforeMore(end: nat)
      requires Before(end)
      ensures Before(end + 1)
    {
    }

    /** Enters positions of the last match and returns the candidate for the next. */
    method UpdateHashTable(ip: nat, third: nat) returns (candidate: nat)
      requires Valid() && Before(ip) && minMatch < ip && ip + 8 <= |input| && (third == 0 || third == 2)
      modifies table
      ensures Valid() && candidate < ip && Before(ip + 1)
      ensures Rules().Slots(old(table[..]))
      ensures var t := Rules().Refreshed(old(table[..]), ip, third == 2);
              candidate == t[hash(ip)] && table[..] == t[hash(ip) := ip]
    {
      hide Histogram, Emitter.Valid, Before;
      if minMatch == 4 {
        Store(ip - 3, ip - 3, ip);
        Store(ip - 2, ip - 2, ip);
        Store(ip - 3 + third, ip - 1, ip);
      } else {
        Store(ip - 5, ip - 5, ip);
        Store(ip - 4, ip - 4, ip);
        Store(ip - 3, ip - 3, ip);
        Store(ip - 2, ip - 2, ip);
        Store(ip - 1, ip - 1, ip);
      }
      candidate := table[hash(ip)];
      BeforeAt(ip, hash(ip));
      BeforeMore(ip);
      Store(ip, ip, ip + 1);
    }

    /** The whole length of a match, up to the end of the block or the first byte that differs. */
    method MatchLength(candidate: nat, ip: nat, end: nat) returns (m: nat)
      requires Valid() && Usable(candidate, ip) && ip + minMatch <= end <= |input|
      ensures minMatch <= m <= end - ip && Repeats(input, ip, ip - candidate, m)
      ensures Rules().Maximal(ip, candidate, m, end)
    {
      hide Histogram, Emitter.Valid;
      var l := TreeHasher.MatchLenAt(input, candidate + minMatch, ip + minMatch, end - ip - minMatch);
      m := minMatch + l;
      forall x | ip <= x < ip + m
        ensures input[x] == input[x - (ip - candidate)]
      {
        if x < ip + minMatch {
          assert input[ip..ip + minMatch][x - ip] == input[candidate..candidate + minMatch][x - ip];
        } else {
          assert TreeHasher.Same(input, candidate + minMatch, ip + minMatch, x - ip - minMatch);
        }
      }
    }

    /** The words and literals so far replay to the input up to end, and there are no more of either
        than bytes. */
    ghost predicate Covered(pos: nat, end: nat, last: int) reads this, e {
      && pos <= end <= |input|
         && Produced(Play(Player(input[..pos], -1, 0, 0), e.words, e.lits), input, end, last, |e.lits|)
      && |e.words| <= end - pos && |e.lits| <= end - pos
    }

    /** The words and literals so far are those of the matches f, the last of which ends at end. */
    ghost predicate Emitted(f: seq<Found>, pos: nat, end: nat, last: int) reads this, e {
      && e.words == WordsOf(f, pos) && e.lits == LiteralsOf(input, f, pos)
      && EndOf(f, pos, |f|) == end && LastOf(f, |f|) == last
    }

    ghost function Scans(pos: nat, limit: nat, end: nat): Scanner { Scanner(Rules(), pos, limit, end) }

    /** Room for a block of n bytes. */
    ghost predicate Room(n: nat) reads this, e { n <= e.commands.Length && n <= e.literals.Length }

    /** After the words of one match more. */
    lemma NowEmitted(f: seq<Found>, x: Found, pos: nat, words: seq<nat>, lits: seq<byte>)
      requires words == WordsOf(f, pos) && lits == LiteralsOf(input, f, pos) && x.candidate < x.at <= |input|
      requires x.length >= 4 && EndOf(f, pos, |f|) <= x.at && (x.again ==> x.at == EndOf(f, pos, |f|))
      requires e.words == words + if x.again then [CopyWord(x.length), DistanceWord(x.at - x.candidate)]
               else MatchWords(x.at - EndOf(f, pos, |f|), LastOf(f, |f|), x.at - x.candidate, x.length)
      requires e.lits == lits + input[EndOf(f, pos, |f|)..x.at]
      ensures Emitted(f + [x], pos, x.at + x.length, x.at - x.candidate)
    {
      hide CopyWord, DistanceWord, MatchWords, WordsOf, LiteralsOf;
      WordsNext(input, f, pos, x);
    }

    /** A match with the literals before it. */
    method EmitMatch(nextEmit: nat, ip: nat, distance: nat, m: nat, last: int, ghost pos: nat)
      requires Valid() && Covered(pos, nextEmit, last) && nextEmit <= ip && ip + 16 <= |input| && Room(ip + m - pos)
      requires 1 <= distance <= MAX_DISTANCE && m >= 4 && Repeats(input, ip, distance, m)
      modifies e, e.commands, e.literals, e.histo
      ensures Valid() && Covered(pos, ip + m, distance)
      ensures e.words == old(e.words) + MatchWords(ip - nextEmit, last, distance, m)
      ensures e.lits == old(e.lits) + input[nextEmit..ip]
    {
      hide Histogram, Play, InsertWord, LastDistanceWords, DistanceWord, Repeats, Emitter.Valid;
      var insert := ip - nextEmit;
      RepeatsInside(input, ip, distance, m);
      PlayMatch(Player(input[..pos], -1, 0, 0), e.words, e.lits, input, nextEmit, last, insert, distance, m);
      LastDistanceCount(m);
      e.Lengths();
      e.PutMatch(input, nextEmit, insert, last, distance, m);
    }

    /** A match right behind another. */
    method EmitRepeat(ip: nat, distance: nat, m: nat, ghost last: int, ghost pos: nat)
      requires Valid() && Covered(pos, ip, last) && Room(ip + m - pos)
      requires 1 <= distance <= MAX_DISTANCE && m >= 4 && Repeats(input, ip, distance, m)
      modifies e, e.commands, e.histo
      ensures Valid() && Covered(pos, ip + m, distance)
      ensures e.words == old(e.words) + [CopyWord(m), DistanceWord(distance)] && e.lits == old(e.lits)
    {
      hide Histogram, Play, CopyWord, DistanceWord, Repeats, Emitter.Valid;
      RepeatsInside(input, ip, distance, m);
      PlayRepeat(Player(input[..pos], -1, 0, 0), e.words, e.lits, input, ip, last, distance, m);
      ghost var words := e.words;
      e.Lengths();
      e.Put(CopyWord(m));
      e.Lengths();
      e.Put(DistanceWord(distance));
      assert e.words == words + [CopyWord(m), DistanceWord(distance)];
    }

    /** What is left of the block as literals. */
    method EmitRemainder(nextEmit: nat, end: nat, ghost last: int, ghost pos: nat)
      requires Valid() && Covered(pos, nextEmit, last) && nextEmit <= end <= |input| && Room(end - pos)
      modifies e, e.commands, e.literals, e.histo
      ensures Valid() && Replays(pos, end)
      ensures e.words == old(e.words) + (if nextEmit < end then [InsertWord(end - nextEmit)] else [])
      ensures e.lits == old(e.lits) + input[nextEmit..end]
    {
      hide Histogram, Play, InsertWord, Emitter.Valid;
      if nextEmit < end {
        var insert := end - nextEmit;
        PlayLast(Player(input[..pos], -1, 0, 0), e.words, e.lits, input, nextEmit, last, insert);
        e.Lengths();
        e.Put(InsertWord(insert));
        e.Lengths();
        e.PutLiterals(input, nextEmit, insert, false);
      }
    }

    /** Replaying the words and literals turns the input before pos into the input before end; what is
        left of the last command, if anything, is the copy that the end of the block cuts off. */
    ghost predicate Replays(pos: nat, end: nat) reads this, e {
      && pos <= end <= |input| && |e.words| <= end - pos && |e.lits| <= end - pos
      && var q := Play(Player(input[..pos], -1, 0, 0), e.words, e.lits);
         q.Player? && q.out == input[..end] && q.used == |e.lits| && (q.pending == 0 || q.pending == 2)
    }

    /** Matches that follow at once on a match: as long as there is one right behind the last. */
    method FollowMatches(start: nat, limit: nat, end: nat, last0: int, ghost pos: nat, ghost tr0: Trace)
      returns (nextEmit: nat, last: int, ghost tr: Trace)
      requires Valid() && Covered(pos, start, last0) && Before(start) && minMatch < start <= end
               && limit + minMatch <= end <= |input| && limit + 16 <= |input|
      requires Room(end - pos)
      requires Scans(pos, limit, end).Follows(tr0) && Emitted(tr0.found, pos, start, last0) && EndsAt(tr0, table[..])
               && pos <= start && tr0.found != [] && !tr0.found[|tr0.found| - 1].again
      modifies table, e, e.commands, e.histo
      ensures Valid() && Covered(pos, nextEmit, last) && Before(nextEmit + 1) && start <= nextEmit <= end
      ensures Scans(pos, limit, end).Follows(tr) && Emitted(tr.found, pos, nextEmit, last) && tr.found != []
              && tr.tables[0] == tr0.tables[0]
      ensures if nextEmit >= limit then EndsAt(tr, table[..])
              else Scans(pos, limit, end).ScansFrom(tr.found, |tr.found|, tr.tables[|tr.found|], table[..])
    {
      hide Histogram, Play, Emitter.Valid, Repeats, Produced, Search.Refreshed, Scanner.Follows, Scanner.Step, WordsOf,
        LiteralsOf,
        CopyWord, DistanceWord, MatchWords, Covered, Search.Maximal;
      nextEmit, last, tr := start, last0, tr0;
      var third := 0;
      while nextEmit < limit
        invariant Valid() && Covered(pos, nextEmit, last) && Before(nextEmit) && start <= nextEmit <= end
                  && (third == 0 || third == 2)
        invariant Scans(pos, limit, end).Follows(tr) && Emitted(tr.found, pos, nextEmit, last) && EndsAt(tr, table[..])
                  && tr.found != [] && tr.found[|tr.found| - 1].again == (third == 2) && tr.tables[0] == tr0.tables[0]
        decreases end - nextEmit
      {
        ghost var t := table[..];
        var candidate := UpdateHashTable(nextEmit, third);
        SameBytes(nextEmit, candidate);
        if nextEmit - candidate > MAX_DISTANCE || !IsMatch(nextEmit, candidate) { return; }
        var m := MatchLength(candidate, nextEmit, end);
        ghost var x := Found(nextEmit, candidate, m, true);
        IsAgain(Scans(pos, limit, end), tr, x, table[..]);
        AddFound(Scans(pos, limit, end), tr, x, table[..]);
        ghost var words, lits := e.words, e.lits;
        EmitRepeat(nextEmit, nextEmit - candidate, m, last, pos);
        assert lits + input[nextEmit..nextEmit] == lits;
        NowEmitted(tr.found, x, pos, words, lits);
        last := nextEmit - candidate;
        nextEmit := nextEmit + m;
        tr := Trace(tr.found + [x], tr.tables + [table[..]]);
        third := 2;
      }
    }

    /** The next match that a scan finds. */
    method NextMatch(nextEmit: nat, limit: nat, end: nat, last0: int, ghost pos: nat, ghost tr0: Trace)
      returns (ip: nat, last: int, found: bool, ghost tr: Trace)
      requires Valid() && Covered(pos, nextEmit, last0) && Before(nextEmit + 1) && pos <= nextEmit <= limit
               && limit + minMatch <= end <= |input| && limit + 16 <= |input| && Room(end - pos)
      requires Scans(pos, limit, end).Follows(tr0) && Emitted(tr0.found, pos, nextEmit, last0)
      requires |tr0.tables| == |tr0.found| + 1
               && Scans(pos, limit, end).ScansFrom(tr0.found, |tr0.found|, tr0.tables[|tr0.found|], table[..])
      modifies table, e, e.commands, e.literals, e.histo
      ensures Valid() && Covered(pos, ip, last) && Emitted(tr.found, pos, ip, last)
      ensures Scans(pos, limit, end).Follows(tr) && tr.tables != [] && tr.tables[0] == tr0.tables[0]
      ensures found ==> nextEmit + minMatch < ip <= end && Before(ip) && EndsAt(tr, table[..])
                        && tr.found != [] && !tr.found[|tr.found| - 1].again
      ensures !found ==> ip == nextEmit && last == last0 && Before(end + 1) && |tr.tables| == |tr.found| + 1
                         && Scans(pos, limit, end).Stops(tr, table[..])
    {
      hide Histogram, Play, Emitter.Valid, Repeats, Produced, Scanner.Follows, Scanner.Step, WordsOf, LiteralsOf,
        Search.Misses,
        Search.Finds, Search.Refreshed, Scanner.ScansFrom, Search.Maximal, MatchWords, Covered, Scanner.Stops;
      ghost var u := table[..];
      var candidate;
      ghost var k;
      ip, candidate, found, k := FindMatch(nextEmit + 1, limit, last0);
      if !found {
        StopsThere(Scans(pos, limit, end), tr0, u, k, table[..]);
        return nextEmit, last0, false, tr0;
      }
      var m := MatchLength(candidate, ip, end);
      ghost var x := Found(ip, candidate, m, false);
      IsFound(Scans(pos, limit, end), tr0, x, u, k, table[..]);
      AddFound(Scans(pos, limit, end), tr0, x, table[..]);
      ghost var words, lits := e.words, e.lits;
      EmitMatch(nextEmit, ip, ip - candidate, m, last0, pos);
      NowEmitted(tr0.found, x, pos, words, lits);
      last := ip - candidate;
      tr := Trace(tr0.found + [x], tr0.tables + [table[..]]);
      ip := ip + m;
    }

    /** Scans a block up to its margin. */
    method Scan(pos: nat, limit: nat, end: nat) returns (nextEmit: nat, last: int, ghost tr: Trace)
      requires Valid() && Covered(pos, pos, -1) && Before(pos + 1) && pos <= limit && limit + minMatch <= end <= |input|
               && limit + 16 <= |input|
      requires Room(end - pos) && e.words == [] && e.lits == []
      modifies table, e, e.commands, e.literals, e.histo
      ensures Valid() && Covered(pos, nextEmit, last) && Before(end + 1) && pos <= nextEmit <= end
      ensures Scans(pos, limit, end).Follows(tr) && Emitted(tr.found, pos, nextEmit, last)
              && tr.tables[0] == old(table[..]) && Scans(pos, limit, end).Stops(tr, table[..])
    {
      hide Histogram, Play, Emitter.Valid, Repeats, Produced, Scanner.Follows, Scanner.Step, WordsOf, LiteralsOf,
        Search.Misses,
        Search.Finds, Search.Refreshed, Scanner.ScansFrom;
      nextEmit, last, tr := pos, -1, Trace([], [table[..]]);
      NoMatches(Scans(pos, limit, end), input, tr);
      while true
        invariant Valid() && Covered(pos, nextEmit, last) && Before(nextEmit + 1) && pos <= nextEmit <= limit
        invariant Scans(pos, limit, end).Follows(tr) && Emitted(tr.found, pos, nextEmit, last)
        invariant |tr.tables| == |tr.found| + 1 && tr.tables[0] == old(table[..])
        invariant Scans(pos, limit, end).ScansFrom(tr.found, |tr.found|, tr.tables[|tr.found|], table[..])
        decreases end - nextEmit
      {
        var ip, found;
        ip, last, found, tr := NextMatch(nextEmit, limit, end, last, pos, tr);
        if !found { return; }
        nextEmit, last, tr := FollowMatches(ip, limit, end, last, pos, tr);
        FollowsSize(Scans(pos, limit, end), tr);
        if nextEmit >= limit { return; }
      }
    }

    /** The matches of a block: none in a short block, and otherwise those that the rules give up to the limit. */
    ghost predicate Parsed(pos: nat, blockSize: nat, t: seq<nat>, tr: Trace, t': seq<nat>) {
      if blockSize < INPUT_MARGIN then tr == Trace([], [t]) && t' == t
      else
        && pos <= LimitOf(pos, blockSize) && tr.tables != [] && tr.tables[0] == t
        && Scans(pos, LimitOf(pos, blockSize), pos + blockSize).Follows(tr)
        && Scans(pos, LimitOf(pos, blockSize), pos + blockSize).Stops(tr, t')
    }

    /** Where scanning ends: so far before the end of the block that a match fits, and 16 bytes before the end of the
        input. */
    ghost function LimitOf(pos: nat, blockSize: nat): int {
      if blockSize - minMatch <= |input| - pos - INPUT_MARGIN then pos + blockSize - minMatch
        else |input| - INPUT_MARGIN
    }

    /** The words and literals are those of the matches, and an insert of what is left. */
    ghost predicate Coded(b: Block, pos: nat, end: nat, f: seq<Found>) {
      && EndOf(f, pos, |f|) <= end <= |input|
      && var rest := end - EndOf(f, pos, |f|);
         b.words == WordsOf(f, pos) + (if rest > 0 then [InsertWord(rest)] else [])
         && b.lits == LiteralsOf(input, f, pos) + input[end - rest..end]
    }

    /** A block that comes out as one insert, or as nothing, is short, or has no match at any position of the scan. */
    lemma InsertOnly(b: Block, pos: nat, blockSize: nat, t: seq<nat>, tr: Trace, t': seq<nat>) returns (k: nat)
      requires Parsed(pos, blockSize, t, tr, t') && Coded(b, pos, pos + blockSize, tr.found) && |b.words| <= 1
      requires blockSize >= INPUT_MARGIN && (minMatch == 4 || minMatch == 6)
      ensures pos <= LimitOf(pos, blockSize) && Rules().Misses(t, pos + 1, LimitOf(pos, blockSize), -1, k, t')
    {
      var c := Scans(pos, LimitOf(pos, blockSize), pos + blockSize);
      hide Search.Finds, WordsOf, Search.Misses, Scanner.Step, LimitOf;
      if tr.found != [] { ManyWords(c, tr); }
      var u, j :| c.ScanMisses(tr.found, 0, tr.tables[0], u, j, t');
      k := j;
    }

    lemma ManyWords(c: Scanner, tr: Trace)
      requires c.Follows(tr) && tr.found != [] && c.s.minMatch >= 4
      ensures |WordsOf(tr.found, c.pos)| >= 2
    {
      var k := |tr.found| - 1;
      var x := tr.found[k];
      StepBounds(c, tr, k);
      hide CopyWord, DistanceWord, InsertWord, LastDistanceWords, Scanner.Follows;
    }

    lemma StepBounds(c: Scanner, tr: Trace, k: nat)
      requires c.Follows(tr) && k < |tr.found| && c.s.minMatch >= 4
      ensures tr.found[k].at > tr.found[k].candidate && tr.found[k].length >= 4
      ensures EndOf(tr.found, c.pos, k) <= tr.found[k].at
    {
      assert c.Step(tr, k);
      hide Scanner.Follows, Search.Choice, Search.TableAt, Search.Nothing;
      var x := tr.found[k];
      if !x.again {
        var u, j :| c.ScanFinds(tr.found, k, tr.tables[k], u, j, x, tr.tables[k + 1]);
        ProbesGrow(EndOf(tr.found, c.pos, k) + 1, 0, j);
      }
    }

    /** The first pass over one block. */
    method CreateCommands(pos: nat, blockSize: nat) returns (ghost tr: Trace)
      requires Valid() && Before(pos + 1) && pos + blockSize <= |input| && Room(blockSize)
      modifies table, e, e.commands, e.literals, e.histo
      ensures Valid() && Replays(pos, pos + blockSize) && Before(pos + blockSize + 1)
      ensures Parsed(pos, blockSize, old(table[..]), tr, table[..])
              && Coded(Block(e.words, e.lits), pos, pos + blockSize, tr.found)
    {
      hide Histogram, Emitter.Valid, Parsed, WordsOf, LiteralsOf, InsertWord, Play, Covered, Replays;
      var end := pos + blockSize;
      var nextEmit, last;
      nextEmit, last, tr := ScanBlock(pos, blockSize);
      EmitRemainder(nextEmit, end, last, pos);
    }

    /** Clears the buffers, and scans the block if it is not too short. */
    method ScanBlock(pos: nat, blockSize: nat) returns (nextEmit: nat, last: int, ghost tr: Trace)
      requires Valid() && Before(pos + 1) && pos + blockSize <= |input| && Room(blockSize)
      modifies table, e, e.commands, e.literals, e.histo
      ensures Valid() && Covered(pos, nextEmit, last) && pos <= nextEmit <= pos + blockSize
              && Before(pos + blockSize + 1)
      ensures Parsed(pos, blockSize, old(table[..]), tr, table[..]) && Emitted(tr.found, pos, nextEmit, last)
    {
      hide Histogram, Emitter.Valid, Scanner.Follows, Scanner.Stops, WordsOf, LiteralsOf, Scanner.ScansFrom;
      e.Clear();
      nextEmit, last, tr := pos, -1, Trace([], [table[..]]);
      NoMatches(Scans(pos, 0, 0), input, tr);
      if blockSize >= INPUT_MARGIN {
        hide Play;
        var length :=
          if blockSize - minMatch <= |input| - pos - INPUT_MARGIN then blockSize - minMatch
            else |input| - pos - INPUT_MARGIN;
        nextEmit, last, tr := Scan(pos, pos + length, pos + blockSize);
        FollowsSize(Scans(pos, pos + length, pos + blockSize), tr);
      }
    }

    /** The first n bytes in blocks, each parsed with the table that the one before left. */
    ghost predicate BlocksParsed(blocks: seq<Block>, traces: seq<Trace>, tables: seq<seq<nat>>, n: nat) {
      && |traces| == |blocks| && |tables| == |blocks| + 1 && n <= |input|
      && |blocks| == (n + BLOCK_SIZE - 1) / BLOCK_SIZE
      && forall k :: 0 <= k < |blocks| ==> BlockParsed(blocks[k], traces[k], tables[k], tables[k + 1], BLOCK_SIZE * k)
    }

    ghost predicate BlockParsed(b: Block, tr: Trace, t: seq<nat>, t': seq<nat>, pos: nat) {
      && pos <= |input|
      && var size := if |input| - pos <= BLOCK_SIZE then |input| - pos else BLOCK_SIZE;
         Parsed(pos, size, t, tr, t') && Coded(b, pos, pos + size, tr.found)
    }

    lemma NoBlocks(tables: seq<seq<nat>>)
      requires |tables| == 1
      ensures BlocksParsed([], [], tables, 0)
    {
    }

    lemma MoreBlocks(blocks: seq<Block>, traces: seq<Trace>, tables: seq<seq<nat>>, n: nat, b: Block, tr: Trace,
                     t': seq<nat>)
      requires BlocksParsed(blocks, traces, tables, n) && n == BLOCK_SIZE * |blocks| < |input|
      requires BlockParsed(b, tr, tables[|tables| - 1], t', n)
      ensures var size := if |input| - n <= BLOCK_SIZE then |input| - n else BLOCK_SIZE;
              && BlocksParsed(blocks + [b], traces + [tr], tables + [t'], n + size)
              && (n + size < |input| ==> n + size == BLOCK_SIZE * |blocks + [b]|)
    {
      hide BlockParsed;
    }

    lemma PlayedBlock(blocks: seq<Block>, pos: nat, end: nat)
      requires PlayBlocks(blocks).Player? && pos <= |input| && PlayBlocks(blocks).out == input[..pos]
               && Replays(pos, end)
      ensures PlayBlocks(blocks + [Block(e.words, e.lits)]).Player? && end <= |input|
              && PlayBlocks(blocks + [Block(e.words, e.lits)]).out == input[..end]
    {
      hide Play;
      PlayBlocksNext(blocks, Block(e.words, e.lits));
    }

    /** The first pass over all blocks of a fragment: replayed one after the other, each from what those
        before it produced, they give the fragment. */
    method CreateBlocks() returns (blocks: seq<Block>, ghost traces: seq<Trace>, ghost tables: seq<seq<nat>>)
      requires Valid() && Before(1) && Room(if |input| <= BLOCK_SIZE then |input| else BLOCK_SIZE)
      modifies table, e, e.commands, e.literals, e.histo
      ensures PlayBlocks(blocks).Player? && PlayBlocks(blocks).out == input
      ensures |tables| > 0 && tables[0] == old(table[..])
      ensures BlocksParsed(blocks, traces, tables, |input|)
    {
      hide Histogram, Play, Emitter.Valid, Parsed, Coded, Replays, BlocksParsed;
      blocks, traces, tables := [], [], [table[..]];
      NoBlocks(tables);
      var pos := 0;
      while pos < |input|
        invariant Valid() && Before(pos + 1) && pos <= |input| && PlayBlocks(blocks).Player?
                  && PlayBlocks(blocks).out == input[..pos]
        invariant tables != [] && tables[0] == old(table[..]) && tables[|tables| - 1] == table[..]
        invariant BlocksParsed(blocks, traces, tables, pos) && (pos < |input| ==> pos == BLOCK_SIZE * |blocks|)
      {
        var size := if |input| - pos <= BLOCK_SIZE then |input| - pos else BLOCK_SIZE;
        ghost var t := table[..];
        ghost var tr := CreateCommands(pos, size);
        PlayedBlock(blocks, pos, pos + size);
        e.Contents();
        ghost var b := Block(e.words, e.lits);
        MoreBlocks(blocks, traces, tables, pos, b, tr, table[..]);
        traces, tables := traces + [tr], tables + [table[..]];
        blocks := blocks + [Block(e.commands[..e.cmdPos], e.literals[..e.litPos])];
        pos := pos + size;
      }
      assert input[..pos] == input;
    }
  }

  const BLOCK_SIZE := 0x2_0000

  datatype Block = Block(words: seq<nat>, lits: seq<byte>)

  /** The blocks one after the other, each from the output of those before it. */
  ghost function PlayBlocks(blocks: seq<Block>): Player {
    if blocks == [] then Player([], -1, 0, 0) else
      var p := PlayBlocks(blocks[..|blocks| - 1]);
      if p.Broken? then Broken else Play(Player(p.out, -1, 0, 0), blocks[|blocks| - 1].words, blocks[|blocks| - 1].lits)
  }

  lemma PlayBlocksNext(blocks: seq<Block>, b: Block)
    requires PlayBlocks(blocks).Player?
    ensures PlayBlocks(blocks + [b]) == Play(Player(PlayBlocks(blocks).out, -1, 0, 0), b.words, b.lits)
  {
    assert (blocks + [b])[..|blocks|] == blocks;
  }

  lemma LastDistanceCount(m: nat)
    requires m >= 4
    ensures 1 <= |LastDistanceWords(m)| <= 2 && (m < 72 ==> |LastDistanceWords(m)| == 1)
  {
    hide Split, Len, Pow2, Word;
  }
}
