/** Meta-blocks over the ring: how many bytes a block still owes, the errors of a block that runs past
    its declared length or past the limit of the output, and whole runs of blocks. */
module MetaBlocks {
  import opened Arithmetic
  import opened Bits
  import opened RingBuffer

  // ---------- The meaning of a run ----------

  /** What the decoder does inside a meta-block. Literals stand for the insert part of a command, and for
      the bytes of an uncompressed block; a word is a reference into the static dictionary. */
  datatype Event = Literals(lits: seq<byte>) | Copy(d: nat, length: nat) | Word(word: seq<byte>) | Deliver(n: nat)
  {
    /** Words fit the slack; the decoder rejects a distance of zero before it copies. */
    predicate WellFormed() { (Word? ==> |word| < SLACK) && (Copy? ==> d >= 1) }

    /** The bytes it adds. */
    function Size(): nat {
      match this
      case Literals(lits) => |lits|
      case Copy(_, length) => length
      case Word(word) => |word|
      case Deliver(_) => 0
    }
  }

  /** The history that an event leaves. */
  ghost function Meaning(h: seq<byte>, e: Event): seq<byte> {
    match e
    case Literals(lits) => h + lits
    case Copy(d, length) => if 1 <= d <= |h| then Extend(h, d, length) else h
    case Word(word) => h + word
    case Deliver(_) => h
  }

  /** Copies reach back to the start of the output, and no further than the window less the gap. */
  ghost predicate Allowed(window: nat, h: seq<byte>, e: Event) {
    e.Copy? ==> e.d <= |h| && e.d + WINDOW_GAP <= window
  }

  datatype Block = Block(mlen: nat, events: seq<Event>)
  {
    predicate WellFormed() { forall e <- events :: e.WellFormed() }
  }

  datatype Outcome = Complete(h: seq<byte>) | Unfinished(h: seq<byte>) | Overrun | BadDistance | OverLimit

  /** A block ends as soon as its bytes are there; what follows in the same command is not read. */
  ghost function BlockMeaning(window: nat, h: seq<byte>, owed: nat, events: seq<Event>): Outcome
    decreases |events|
  {
    if owed == 0 then Complete(h)
    else if events == [] then Unfinished(h)
    else if !Allowed(window, h, events[0]) then BadDistance
    else if events[0].Size() > owed then Overrun
    else BlockMeaning(window, Meaning(h, events[0]), owed - events[0].Size(), events[1..])
  }

  /** Blocks one after the other; with a limit, the declared lengths together must not exceed it. */
  ghost function RunMeaning(window: nat, limit: nat, h: seq<byte>, blocks: seq<Block>): Outcome
    decreases |blocks|
  {
    if blocks == [] then Complete(h)
    else if limit != 0 && |h| + blocks[0].mlen > limit then OverLimit
    else
      var o := BlockMeaning(window, h, blocks[0].mlen, blocks[0].events);
      if o.Complete? then RunMeaning(window, limit, o.h, blocks[1..]) else o
  }

  /** A block that ends without error has added exactly the bytes it declared. */
  lemma {:induction false} BlockIsExact(window: nat, h: seq<byte>, owed: nat, events: seq<Event>)
    requires forall e <- events :: e.WellFormed()
    ensures var o := BlockMeaning(window, h, owed, events);
            (o.Complete? ==> h <= o.h && |o.h| == |h| + owed) && (o.Unfinished? ==> h <= o.h && |o.h| < |h| + owed)
    decreases |events|
  {
    hide Extend;
    if owed > 0 && events != [] && Allowed(window, h, events[0]) && events[0].Size() <= owed {
      var e := events[0];
      EventAdds(window, h, e);
      BlockIsExact(window, Meaning(h, e), owed - e.Size(), events[1..]);
    }
  }

  lemma EventAdds(window: nat, h: seq<byte>, e: Event)
    requires Allowed(window, h, e)
    ensures e.WellFormed() ==> h <= Meaning(h, e) && |Meaning(h, e)| == |h| + e.Size()
  {
    hide Extend;
    if e.Copy? && e.d >= 1 { ExtendIsPrefixed(h, e.d, e.length); }
  }

  /** So a run that ends without error has added the sum of the declared lengths, within the limit. */
  ghost function Declared(blocks: seq<Block>): nat {
    if blocks == [] then 0 else blocks[0].mlen + Declared(blocks[1..])
  }

  lemma {:induction false} RunIsExact(window: nat, limit: nat, h: seq<byte>, blocks: seq<Block>)
    requires forall b <- blocks :: b.WellFormed()
    ensures var o := RunMeaning(window, limit, h, blocks);
            o.Complete? ==>
              h <= o.h && |o.h| == |h| + Declared(blocks) && (limit != 0 && |h| <= limit ==> |o.h| <= limit)
    decreases |blocks|
  {
    hide BlockMeaning;
    if blocks != [] && !(limit != 0 && |h| + blocks[0].mlen > limit) {
      assert blocks[0].WellFormed();
      BlockIsExact(window, h, blocks[0].mlen, blocks[0].events);
      var o := BlockMeaning(window, h, blocks[0].mlen, blocks[0].events);
      if o.Complete? { RunIsExact(window, limit, o.h, blocks[1..]); }
    }
  }

  // ---------- The decoder ----------

  datatype Status = Ok | NegativeRemaining | DistanceOutsideWindow | SizeLimit

  class Decoder {
    const ring: Ring
    const maxDecodedBytes: nat      // 0 for no limit
    var remaining: int              // bytes of the block that no command has claimed yet
    var claimed: nat                // bytes that the current command claimed and did not write yet
    var declaredTotal: nat
    ghost var declared: nat         // sum of the lengths of all blocks begun

    /** Written, claimed and remaining bytes make up what was declared, and nothing behind that was
        handed out. */
    ghost predicate Valid() reads this, ring, ring.buf {
      && ring.Valid() && |ring.history| + claimed + remaining == declared && ring.partialPosOut <= declared
      && (maxDecodedBytes != 0 ==> declaredTotal == declared <= maxDecodedBytes)
    }

    /** Ready for the next command. */
    ghost predicate Live() reads this, ring, ring.buf {
      Valid() && ring.Ready() && IsSize(ring.newSize)
    }

    constructor (windowBits: nat, limit: nat)
      requires 10 <= windowBits <= 24
      ensures Idle() && fresh(ring) && fresh(ring.buf) && ring.history == [] && ring.out == [] && ring as object != this
      ensures ring.window == Pow2(windowBits) && maxDecodedBytes == limit && declared == 0
    {
      ring := new Ring(windowBits);
      maxDecodedBytes, remaining, claimed, declaredTotal, declared := limit, 0, 0, 0, 0;
    }

    /** Between blocks. */
    ghost predicate Idle() reads this, ring, ring.buf {
      Valid() && remaining == 0 == claimed && (ring.size == 0 || Live())
    }

    /** Begins a block: with a limit, only if the declared total stays within it. */
    method BeginBlock(mlen: nat) returns (status: Status)
      requires Idle() && this as object != ring && mlen > 0
      modifies this`remaining, this`declaredTotal, this`declared, ring
      ensures Valid() && ring.history == old(ring.history) && ring.out == old(ring.out)
              && (ring.buf == old(ring.buf) || fresh(ring.buf))
      ensures status == if maxDecodedBytes != 0 && |ring.history| + mlen > maxDecodedBytes then SizeLimit else Ok
      ensures status == Ok ==> Live() && remaining == mlen && claimed == 0
      ensures status != Ok ==> declared == old(declared)
    {
      hide Ring.Valid, IsSize;
      if maxDecodedBytes != 0 {
        if mlen > maxDecodedBytes - declaredTotal { return SizeLimit; }
        declaredTotal := declaredTotal + mlen;
      }
      declared := declared + mlen;
      remaining := mlen;
      ring.Begin(mlen);
      status := Ok;
    }

    /** What may be taken: nothing once a command has run past the block. */
    method PendingOutput() returns (p: seq<byte>)
      requires Valid()
      ensures remaining < 0 ==> p == []
      ensures ring.partialPosOut + |p| <= declared && ring.partialPosOut + |p| <= |ring.history|
      ensures p == ring.history[ring.partialPosOut..ring.partialPosOut + |p|]
      ensures remaining >= 0 ==>
              ring.partialPosOut + |p| == Max(ring.partialPosOut, Min(|ring.history|, ring.lap + ring.size))
    {
      hide Ring.Valid, Max, Min;
      ring.OutIsPrefix();
      if remaining < 0 { return []; }
      p := ring.PendingOutput();
    }

    /** Takes n of the pending bytes. */
    method ConsumeOutput(n: nat)
      requires Valid() && remaining >= 0
               && ring.partialPosOut + n <= Max(ring.partialPosOut, Min(|ring.history|, ring.lap + ring.size))
      modifies ring`partialPosOut, ring`out
      ensures Valid() && ring.partialPosOut == old(ring.partialPosOut) + n && (old(Live()) ==> Live())
      ensures ring.out == old(ring.out) + ring.history[old(ring.partialPosOut)..ring.partialPosOut]
    {
      hide Ring.Valid, Max, Min;
      ring.ConsumeOutput(n);
      ring.OutIsPrefix();
    }

    /** Writes a full ring out, unless a command has run past the block. */
    method WriteOut() returns (status: Status)
      requires Valid() && IsSize(ring.newSize) && ring.pos >= ring.size && this as object != ring
      modifies ring, ring.buf
      ensures Valid() && ring.history == old(ring.history) && (ring.buf == old(ring.buf) || fresh(ring.buf))
              && old(ring.out) <= ring.out
      ensures status == (if remaining < 0 then NegativeRemaining else Ok) && ring.maxDistance >= old(ring.maxDistance)
      ensures status == Ok ==> Live()
      ensures status != Ok ==> ring.out == old(ring.out)
    {
      hide Ring.Valid, IsSize;
      if remaining < 0 { return NegativeRemaining; }
      ring.WriteRingBuffer();
      ring.OutIsPrefix();
      status := Ok;
    }

    /** A block that has been overrun is an error. */
    function Checked(): Status reads this { if remaining < 0 then NegativeRemaining else Ok }

    /** The literals of a command: they are claimed at once and written one by one. */
    method Insert(lits: seq<byte>) returns (status: Status)
      requires Live() && claimed == 0 && remaining > 0 && this as object !in {ring, ring.buf}
      modifies this`remaining, this`claimed, ring, ring.buf
      ensures Valid() && (ring.buf == old(ring.buf) || fresh(ring.buf)) && old(ring.out) <= ring.out
      ensures remaining == old(remaining) - |lits| && status == Checked()
      ensures status == Ok ==> Live() && claimed == 0 && ring.history == old(ring.history) + lits
    {
      hide Ring.Valid, IsSize;
      remaining := remaining - |lits|;
      claimed := |lits|;
      ghost var h := ring.history;
      assert h + lits[..0] == h;
      for i := 0 to |lits|
        invariant Live() && claimed == |lits| - i && remaining == old(remaining) - |lits|
                  && ring.history == h + lits[..i]
        invariant (ring.buf == old(ring.buf) || fresh(ring.buf)) && old(ring.out) <= ring.out
                  && this as object !in {ring, ring.buf}
      {
        claimed := claimed - 1;
        ring.WriteLiteral(lits[i]);
        assert h + lits[..i] + [lits[i]] == h + lits[..i + 1];
        if ring.pos == ring.size {
          status := WriteOut();
          if status != Ok { return; }
        }
      }
      status := Checked();
      assert lits[..|lits|] == lits;
    }

    /** A dictionary word: it is written into the ring and its slack first. */
    method AppendWord(word: seq<byte>) returns (status: Status)
      requires Live() && claimed == 0 && remaining > 0 && |word| < SLACK && this as object !in {ring, ring.buf}
      modifies this`remaining, ring, ring.buf
      ensures Valid() && (ring.buf == old(ring.buf) || fresh(ring.buf)) && old(ring.out) <= ring.out
      ensures remaining == old(remaining) - |word| && status == Checked()
      ensures status == Ok ==> Live() && claimed == 0 && ring.history == old(ring.history) + word
    {
      hide Ring.Valid, IsSize;
      ring.AppendWord(word);
      remaining := remaining - |word|;
      if ring.pos >= ring.size {
        status := WriteOut();
        return;
      }
      status := Checked();
    }

    /** A backward reference: it suspends each time the ring is full, and goes on after the ring has been
        written out or grown. */
    method CopyReference(d: nat, length: nat) returns (status: Status)
      requires Live() && claimed == 0 && remaining > 0 && d >= 1 && this as object !in {ring, ring.buf}
      modifies this`remaining, this`claimed, ring, ring.buf
      ensures Valid() && (ring.buf == old(ring.buf) || fresh(ring.buf)) && old(ring.out) <= ring.out
      ensures status == DistanceOutsideWindow <==> !Allowed(ring.window, old(ring.history), Copy(d, length))
      ensures status == DistanceOutsideWindow ==>
              Live() && ring.history == old(ring.history) && remaining == old(remaining)
      ensures status != DistanceOutsideWindow ==> remaining == old(remaining) - length && status == Checked()
      ensures status == Ok ==>
              Live() && claimed == 0 && d <= |old(ring.history)| && ring.history == Extend(old(ring.history), d, length)
    {
      hide Ring.Valid, IsSize, Extend;
      ghost var h := ring.history;
      ring.WindowSize();
      var r := ring.BackwardReference(d, length);
      if r.OutsideWindow? { return DistanceOutsideWindow; }
      remaining := remaining - length;
      claimed := r.rest;
      while ring.pos == ring.size
        invariant Valid() && (ring.buf == old(ring.buf) || fresh(ring.buf)) && old(ring.out) <= ring.out
                  && this as object !in {ring, ring.buf}
        invariant 1 <= d <= |h| && d <= ring.maxDistance && ring.pos <= ring.size && IsSize(ring.newSize)
                  && remaining == old(remaining) - length
        invariant claimed <= length && ring.history == Extend(h, d, length - claimed)
                  && (claimed > 0 ==> ring.pos == ring.size)
        decreases claimed, if ring.pos == ring.size then 1 else 0
      {
        status := WriteOut();
        if status != Ok { return; }
        ghost var g := ring.history;
        var rest := ring.WrapCopy(d, claimed);
        ExtendSplit(h, d, |g| - |h|, |ring.history| - |g|);
        claimed := rest;
      }
      status := Checked();
    }

    /** One event while the block still owes bytes. */
    method Perform(e: Event) returns (status: Status)
      requires Live() && claimed == 0 && remaining > 0 && e.WellFormed() && this as object !in {ring, ring.buf}
      modifies this`remaining, this`claimed, ring, ring.buf
      ensures Valid() && (ring.buf == old(ring.buf) || fresh(ring.buf)) && old(ring.out) <= ring.out
      ensures status == Expected(ring.window, old(ring.history), old(remaining), e)
      ensures status == Ok ==>
                Live() && claimed == 0 && remaining == old(remaining) - e.Size() >= 0
                  && ring.history == Meaning(old(ring.history), e)
    {
      hide Ring.Valid, IsSize, Extend, Max, Min;
      match e
      case Literals(lits) => status := Insert(lits);
      case Copy(d, length) => status := CopyReference(d, length);
      case Word(word) => status := AppendWord(word);
      case Deliver(n) =>
        var p := PendingOutput();
        ConsumeOutput(LeastOf(n, |p|));
        status := Ok;
    }

    /** Runs a block from its start. */
    method RunBlock(b: Block) returns (result: Result)
      requires Idle() && b.WellFormed() && this as object !in {ring, ring.buf}
      modifies this, ring, ring.buf
      ensures Valid() && (ring.buf == old(ring.buf) || fresh(ring.buf)) && old(ring.out) <= ring.out
      ensures var o := RunMeaning(ring.window, maxDecodedBytes, old(ring.history), [b]);
              result == ResultOf(o) && (o.Complete? || o.Unfinished? ==> ring.history == o.h)
      ensures result == Done ==> Idle()
    {
      hide Ring.Valid, IsSize, Meaning, Allowed;
      ghost var h := ring.history;
      OneBlock(ring.window, maxDecodedBytes, h, b);
      if b.mlen == 0 { return Done; }
      var status := BeginBlock(b.mlen);
      if status != Ok { return Failed(status); }
      var i := 0;
      assert b.events[0..] == b.events;
      while remaining > 0
        invariant Live() && claimed == 0 && remaining >= 0 && i <= |b.events| && this as object !in {ring, ring.buf}
        invariant (ring.buf == old(ring.buf) || fresh(ring.buf)) && old(ring.out) <= ring.out
        invariant BlockMeaning(ring.window, h, b.mlen, b.events) ==
                  BlockMeaning(ring.window, ring.history, remaining, b.events[i..])
        decreases |b.events| - i
      {
        if i == |b.events| { return NeedsMore; }
        assert b.events[i..][0] == b.events[i] && b.events[i..][1..] == b.events[i + 1..];
        status := Perform(b.events[i]);
        if status != Ok { return Failed(status); }
        i := i + 1;
      }
      result := Done;
    }

    /** Runs any number of blocks, also from a new decoder. The output is what they mean, what was handed
        out is a prefix of it, and neither exceeds what was declared or the limit. */
    method RunBlocks(blocks: seq<Block>) returns (result: Result)
      requires Idle() && (forall b <- blocks :: b.WellFormed()) && this as object !in {ring, ring.buf}
      modifies this, ring, ring.buf
      ensures Valid() && ring.out <= ring.history && |ring.out| <= declared
      ensures maxDecodedBytes != 0 ==> |ring.out| <= maxDecodedBytes
      ensures var o := RunMeaning(ring.window, maxDecodedBytes, old(ring.history), blocks);
              result == ResultOf(o) && (o.Complete? || o.Unfinished? ==> ring.history == o.h)
    {
      hide Ring.Valid, IsSize, BlockMeaning;
      ghost var h := ring.history;
      assert blocks[0..] == blocks;
      for i := 0 to |blocks|
        invariant Idle() && (ring.buf == old(ring.buf) || fresh(ring.buf)) && this as object !in {ring, ring.buf}
        invariant RunMeaning(ring.window, maxDecodedBytes, h, blocks) ==
                  RunMeaning(ring.window, maxDecodedBytes, ring.history, blocks[i..])
      {
        assert blocks[i..][0] == blocks[i] && blocks[i..][1..] == blocks[i + 1..];
        assert blocks[i].WellFormed();
        OneBlock(ring.window, maxDecodedBytes, ring.history, blocks[i]);
        result := RunBlock(blocks[i]);
        if result != Done {
          ring.OutIsPrefix();
          return;
        }
      }
      ring.OutIsPrefix();
      result := Done;
    }
  }

  function LeastOf(a: nat, b: nat): (r: nat)
    ensures r <= a && r <= b
  {
    Min(a, b)
  }

  datatype Result = Done | NeedsMore | Failed(status: Status)

  ghost function ResultOf(o: Outcome): Result {
    match o
    case Complete(_) => Done
    case Unfinished(_) => NeedsMore
    case Overrun => Failed(NegativeRemaining)
    case BadDistance => Failed(DistanceOutsideWindow)
    case OverLimit => Failed(SizeLimit)
  }

  /** How an event ends. */
  ghost function Expected(window: nat, h: seq<byte>, owed: int, e: Event): Status {
    if !Allowed(window, h, e) then DistanceOutsideWindow else if e.Size() > owed then NegativeRemaining else Ok
  }

  lemma OneBlock(window: nat, limit: nat, h: seq<byte>, b: Block)
    ensures RunMeaning(window, limit, h, [b]) ==
              if limit != 0 && |h| + b.mlen > limit then OverLimit else BlockMeaning(window, h, b.mlen, b.events)
  {
    hide BlockMeaning;
    assert [b][1..] == [];
  }

  /** A whole stream, from a new decoder. */
  method DecodeStream(windowBits: nat, limit: nat, blocks: seq<Block>) returns (result: Result, decoder: Decoder)
    requires 10 <= windowBits <= 24 && forall b <- blocks :: b.WellFormed()
    ensures decoder.Valid() && decoder.ring.out <= decoder.ring.history && |decoder.ring.out| <= decoder.declared
    ensures limit != 0 ==> |decoder.ring.out| <= limit
    ensures var o := RunMeaning(Pow2(windowBits), limit, [], blocks);
            && result == ResultOf(o) && (o.Complete? || o.Unfinished? ==> decoder.ring.history == o.h)
            && (result == Done ==> |decoder.ring.history| == Declared(blocks))
  {
    hide RunMeaning, Pow2, Ring.Valid;
    decoder := new Decoder(windowBits, limit);
    result := decoder.RunBlocks(blocks);
    RunIsExact(Pow2(windowBits), limit, [], blocks);
  }
}
