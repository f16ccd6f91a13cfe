/** How decoded bytes reach the caller: pieces of the ring that were written out wait in front of what
    is still in the ring, and a limit cuts the delivery. */
module Delivery {
  import opened Arithmetic
  import opened Bits
  import opened RingBuffer
  import opened MetaBlocks

  datatype Error = NoError | DecodedSizeLimit | Corrupt(status: Status)

  class Server {
    const dec: Decoder
    var out: seq<byte>                // written out by the ring and not yet taken
    var outPos: nat
    var delivered: nat
    var err: Error
    ghost var taken: seq<byte>        // everything the caller received

    ghost predicate Apart() reads dec.ring {
      && this as object !in {dec, dec.ring} && this as object != dec.ring.buf
      && dec as object != dec.ring && dec as object != dec.ring.buf
    }

    /** What the ring handed out is what the caller received and what waits for it, in order. After an
        error nothing waits. */
    ghost predicate Valid() reads this, dec, dec.ring, dec.ring.buf {
      && dec.Valid() && Apart() && outPos <= |out| && delivered == |taken|
      && taken <= dec.ring.history && |taken| <= dec.declared
      && (!err.Corrupt? ==> dec.ring.out == taken + out[outPos..])
      && (err.Corrupt? ==> outPos == |out| && Drained())
    }

    /** Nothing in the ring waits for the caller. */
    ghost predicate Drained() reads dec, dec.ring {
      dec.remaining < 0
        || Max(dec.ring.partialPosOut, Min(|dec.ring.history|, dec.ring.lap + dec.ring.size)) == dec.ring.partialPosOut
    }

    constructor (decoder: Decoder)
      requires decoder.Valid() && decoder.ring.out == []
      requires decoder as object != decoder.ring && decoder as object != decoder.ring.buf
      ensures Valid() && dec == decoder && taken == [] && err == NoError
    {
      dec := decoder;
      out, outPos, delivered, err := [], 0, 0, NoError;
      taken := [];
    }

    /** Keeps what the ring wrote out since it had handed out n bytes. */
    method Collect(n: nat)
      requires dec.Valid() && Apart() && outPos <= |out| && delivered == |taken| && !err.Corrupt?
      requires n <= |dec.ring.out| && dec.ring.out[..n] == taken + out[outPos..]
      modifies this`out
      ensures Valid()
    {
      hide Decoder.Valid;
      ghost var was := out[outPos..];
      out := out + dec.ring.out[n..];
      assert out[outPos..] == was + dec.ring.out[n..];
      assert dec.ring.out == dec.ring.out[..n] + dec.ring.out[n..];
      Associate(taken, was, dec.ring.out[n..]);
      TakenInHistory();
    }

    /** Begins a meta-block. */
    method Begin(mlen: nat) returns (status: Status)
      requires Valid() && dec.Idle() && err == NoError && mlen > 0
      modifies this`out, this`outPos, this`err, dec, dec.ring
      ensures Valid() && taken == old(taken) && dec.ring.history == old(dec.ring.history)
      ensures status == if dec.maxDecodedBytes != 0 && |dec.ring.history| + mlen > dec.maxDecodedBytes then SizeLimit
              else Ok
      ensures if status == Ok then err == NoError && dec.Live() && dec.remaining == mlen && dec.claimed == 0
              else err == Corrupt(status)
    {
      hide Decoder.Valid, Ring.Valid, IsSize;
      status := dec.BeginBlock(mlen);
      Kept();
      if status != Ok { Fail(status); }
    }

    lemma Kept()
      requires dec.Valid() && Apart() && outPos <= |out| && delivered == |taken| && !err.Corrupt?
               && dec.ring.out == taken + out[outPos..]
      ensures Valid()
    {
      hide Decoder.Valid;
      TakenInHistory();
    }

    /** Decodes one event of a block; what the ring writes out is kept for the caller. */
    method Decode(e: Event) returns (status: Status)
      requires Valid() && err == NoError && dec.Live() && dec.claimed == 0 && dec.remaining > 0 && e.WellFormed()
               && !e.Deliver?
      modifies this`out, this`outPos, this`err, dec, dec.ring, dec.ring.buf
      ensures Valid() && taken == old(taken)
              && status == Expected(dec.ring.window, old(dec.ring.history), old(dec.remaining), e)
      ensures if status == Ok then err == NoError else err == Corrupt(status)
      ensures status == Ok ==> dec.Live() && dec.claimed == 0 && dec.remaining == old(dec.remaining) - e.Size() >= 0
      ensures status == Ok ==> dec.ring.history == Meaning(old(dec.ring.history), e)
    {
      hide Decoder.Valid, Ring.Valid, IsSize, Meaning, Allowed;
      var before := |dec.ring.out|;
      ghost var was := dec.ring.out;
      status := dec.Perform(e);
      assert dec.ring.out[..before] == was;
      Collect(before);
      if status != Ok { Fail(status); }
    }

    /** An error throws away what waits. */
    method Fail(status: Status)
      requires Valid() && status != Ok && !err.Corrupt?
      modifies this`out, this`outPos, this`err, dec.ring`partialPosOut, dec.ring`out
      ensures Valid() && err == Corrupt(status) && dec.ring.history == old(dec.ring.history)
    {
      hide Decoder.Valid, Ring.Valid, Max, Min;
      out, outPos, err := [], 0, Corrupt(status);
      var p := dec.PendingOutput();
      if dec.remaining >= 0 {
        dec.ConsumeOutput(|p|);
        MaxTwice(old(dec.ring.partialPosOut), Min(|dec.ring.history|, dec.ring.lap + dec.ring.size));
      }
    }

    /** The bytes that may still be delivered out of n. */
    function Room(n: nat): (r: nat)
      reads this, dec
      requires dec.maxDecodedBytes != 0 ==> delivered <= dec.maxDecodedBytes
      ensures r <= n
    {
      if dec.maxDecodedBytes == 0 then n else Min(n, dec.maxDecodedBytes - delivered)
    }

    /** How many bytes the caller can get at once: those written out, or else those in the ring. */
    ghost function Waiting(): int reads this, dec, dec.ring {
      if outPos < |out| then |out| - outPos
      else if dec.remaining < 0 then 0
      else Max(dec.ring.partialPosOut, Min(|dec.ring.history|, dec.ring.lap + dec.ring.size)) - dec.ring.partialPosOut
    }

    lemma WithinLimit()
      requires Valid()
      ensures dec.maxDecodedBytes != 0 ==> delivered <= dec.maxDecodedBytes
    {
    }

    /** Gives the caller at most n bytes: first those written out, then those in the ring. What was
        received is at every moment the start of the decoded history, no longer than what was declared and
        than the limit; the second check of the limit never fails, because the first came before. */
    method Serve(n: nat) returns (p: seq<byte>)
      requires Valid()
      modifies this, dec.ring`partialPosOut, dec.ring`out
      ensures Valid() && taken == old(taken) + p && |p| <= n && err == old(err)
      ensures dec.ring.history == old(dec.ring.history) && taken <= dec.ring.history && |taken| <= dec.declared
      ensures dec.maxDecodedBytes != 0 ==> |taken| <= dec.maxDecodedBytes
      ensures p == [] && n > 0 ==> outPos == |out| && Drained()
      ensures dec.maxDecodedBytes != 0 ==> old(delivered) <= dec.maxDecodedBytes
      ensures |p| ==
              Min(if dec.maxDecodedBytes == 0 then n else Min(n, dec.maxDecodedBytes - old(delivered)), old(Waiting()))
    {
      hide Decoder.Valid, Ring.Valid, Max;
      WithinLimit();
      SomeWait();
      if dec.maxDecodedBytes != 0 && dec.maxDecodedBytes == delivered {
        CheckLimit();
        return [];
      }
      if outPos < |out| {
        p := ServeWritten(Room(n));
      } else {
        p := ServeRing(Room(n));
      }
      WithinLimit();
    }

    lemma SomeWait()
      ensures Waiting() >= 0
    {
    }

    /** At the limit, bytes that wait would be an error. */
    method CheckLimit()
      requires Valid() && dec.maxDecodedBytes != 0 && dec.maxDecodedBytes == delivered
      modifies this`err
      ensures Valid() && err == old(err) && outPos == |out| && Drained()
    {
      hide Ring.Valid, Max, Min;
      var rest := dec.PendingOutput();
      if !err.Corrupt? { AtLimit(|rest|); }
      var e := err;
      if outPos < |out| || rest != [] { e := DecodedSizeLimit; }
      err := e;
    }

    /** At the limit, nothing can wait: the declared bytes are all delivered. */
    lemma AtLimit(n: nat)
      requires Valid() && !err.Corrupt? && dec.maxDecodedBytes != 0 && dec.maxDecodedBytes == delivered
      requires dec.ring.partialPosOut + n <= dec.declared
      ensures outPos == |out| && n == 0
    {
      OutInHistory();
      hide Ring.Valid;
      assert |dec.ring.out| == |taken| + |out[outPos..]|;
    }

    /** From the bytes written out. */
    method ServeWritten(n: nat) returns (p: seq<byte>)
      requires Valid() && outPos < |out|
      modifies this`out, this`outPos, this`delivered, this`taken
      ensures Valid() && taken == old(taken) + p && |p| == Min(n, old(Waiting())) && (n > 0 ==> p != [])
    {
      hide Decoder.Valid, Ring.Valid;
      var k := Min(n, |out| - outPos);
      p := out[outPos..outPos + k];
      assert out[outPos..] == p + out[outPos + k..];
      Associate(taken, p, out[outPos + k..]);
      outPos, delivered, taken := outPos + k, delivered + k, taken + p;
      if outPos == |out| { out, outPos := [], 0; }
      TakenInHistory();
    }

    /** From the ring. */
    method ServeRing(n: nat) returns (p: seq<byte>)
      requires Valid() && outPos == |out|
      modifies this`delivered, this`taken, dec.ring`partialPosOut, dec.ring`out
      ensures Valid() && taken == old(taken) + p && dec.ring.history == old(dec.ring.history)
      ensures old(Waiting()) >= 0 && |p| == Min(n, old(Waiting()))
      ensures p == [] && n > 0 ==> Drained()
    {
      hide Decoder.Valid, Ring.Valid, Max;
      var pending := dec.PendingOutput();
      if pending == [] { return []; }
      var k := Min(n, |pending|);
      p := pending[..k];
      ghost var from := dec.ring.partialPosOut;
      Prefixes(dec.ring.history, from, |pending|, k);
      dec.ConsumeOutput(k);
      delivered, taken := delivered + k, taken + p;
      TakenInHistory();
    }

    lemma TakenInHistory()
      requires dec.Valid() && outPos <= |out| && dec.ring.out == taken + out[outPos..]
      ensures taken <= dec.ring.history && |taken| <= dec.declared
    {
      OutInHistory();
      hide Ring.Valid;
      assert taken <= dec.ring.out;
    }

    /** What left the ring is the start of the history. */
    lemma OutInHistory()
      requires dec.ring.Valid()
      ensures dec.ring.out <= dec.ring.history && |dec.ring.out| == dec.ring.partialPosOut
    {
    }
  }

  lemma MaxTwice(a: nat, b: nat)
    ensures Max(Max(a, b), b) == Max(a, b)
  {
  }

  lemma Prefixes(h: seq<byte>, from: nat, n: nat, k: nat)
    requires k <= n && from + n <= |h|
    ensures h[from..from + n][..k] == h[from..from + k]
  {
  }

  // ---------- Chunks ----------

  /** All chunks in a row. */
  ghost function Flat(chunks: seq<seq<byte>>): seq<byte> {
    if chunks == [] then [] else Flat(chunks[..|chunks| - 1]) + chunks[|chunks| - 1]
  }

  lemma FlatNext(chunks: seq<seq<byte>>, c: seq<byte>)
    ensures Flat(chunks + [c]) == Flat(chunks) + c
  {
    assert (chunks + [c])[..|chunks|] == chunks;
  }

  ghost predicate Sized(chunks: seq<seq<byte>>, size: nat) { forall i :: 0 <= i < |chunks| ==> |chunks[i]| == size }

  lemma {:induction false} FlatLength(chunks: seq<seq<byte>>, size: nat)
    requires Sized(chunks, size)
    ensures |Flat(chunks)| == Times(|chunks|, size)
  {
    if chunks != [] {
      FlatLength(chunks[..|chunks| - 1], size);
      TimesStep(|chunks|, size);
    }
  }

  lemma NoChunks()
    ensures Flat([]) == []
  {
  }

  lemma TimesNone(size: nat)
    ensures Times(0, size) == 0
  {
  }

  lemma Remainder(k: nat, size: nat, n: nat)
    requires size > 0 && Times(k, size) <= n < Times(k, size) + size
    ensures n % size == n - Times(k, size)
  {
    RemainderIs(k, size, n - k * size, n);
  }

  /** The chunks hold the data, and only the last has room. */
  ghost predicate Stores(chunks: seq<seq<byte>>, size: nat, n: nat, data: seq<byte>) {
    && size > 0 && Sized(chunks, size) && n <= Times(|chunks|, size) && |Flat(chunks)| == Times(|chunks|, size)
    && (chunks != [] ==> n > Times(|chunks| - 1, size)) && data == Flat(chunks)[..n]
  }

  /** Bytes go behind the data in the last chunk, which may be new. */
  lemma Filled(before: seq<seq<byte>>, c: seq<byte>, size: nat, n: nat, data: seq<byte>, p: seq<byte>, k: nat)
    requires size > 0 && Sized(before, size) && |c| == size && Times(|before|, size) <= n < Times(|before|, size) + size
    requires |Flat(before)| == Times(|before|, size) && data == (Flat(before) + c)[..n]
    requires 0 < k <= |p| && n % size + k <= size
    ensures n % size == n - Times(|before|, size)
    ensures Stores(before + [c[..n % size] + p[..k] + c[n % size + k..]], size, n + k, data + p[..k])
  {
    hide Flat, Times;
    Remainder(|before|, size, n);
    TimesStep(|before| + 1, size);
    var off := n % size;
    var c' := c[..off] + p[..k] + c[off + k..];
    FlatNext(before, c');
    assert (Flat(before) + c')[..n + k] == (Flat(before) + c)[..n] + p[..k];
  }

  class ChunkWriter {
    const size: nat
    var chunks: seq<seq<byte>>
    var n: nat
    ghost var data: seq<byte>     // everything written since the last take

    ghost predicate Valid() reads this { Stores(chunks, size, n, data) }

    constructor (chunkSize: nat)
      requires chunkSize > 0
      ensures Valid() && data == [] && size == chunkSize
    {
      size, chunks, n, data := chunkSize, [], 0, [];
    }

    /** Appends p, over as many chunks as it needs. */
    method Write(p0: seq<byte>)
      requires Valid()
      modifies this
      ensures Valid() && data == old(data) + p0
    {
      hide Valid;
      var p := p0;
      while p != []
        invariant Valid() && data + p == old(data) + p0
        decreases |p|
      {
        ghost var d := data;
        var copied := WriteSome(p);
        assert d + p == (d + p[..copied]) + p[copied..];
        p := p[copied..];
      }
      assert data + [] == data;
    }

    /** Fills the last chunk, or a new one if it is full. */
    method WriteSome(p: seq<byte>) returns (copied: nat)
      requires Valid() && p != []
      modifies this
      ensures Valid() && 0 < copied <= |p| && data == old(data) + p[..copied]
    {
      hide Times, Flat, Stores;
      var before, c := SplitLast();
      var off := n % size;
      copied := Min(size - off, |p|);
      Filled(before, c, size, n, data, p, copied);
      chunks, n, data := before + [c[..off] + p[..copied] + c[off + copied..]], n + copied, data + p[..copied];
    }

    /** The chunk with room, a new one if the last is full, and those before it. */
    method SplitLast() returns (before: seq<seq<byte>>, c: seq<byte>)
      requires Valid()
      ensures size > 0 && Sized(before, size) && |c| == size
              && Times(|before|, size) <= n < Times(|before|, size) + size
      ensures |Flat(before)| == Times(|before|, size) && data == (Flat(before) + c)[..n]
    {
      hide Times, Flat;
      TimesNone(size);
      TimesStep(|chunks| + 1, size);
      if n == Times(|chunks|, size) {
        before, c := chunks, seq(size, _ => 0);
      } else {
        before, c := chunks[..|chunks| - 1], chunks[|chunks| - 1];
        TimesStep(|chunks|, size);
        assert before + [c] == chunks;
        FlatNext(before, c);
        FlatLength(before, size);
      }
    }

    /** Takes everything out. */
    method Take() returns (out: seq<byte>)
      requires Valid()
      modifies this
      ensures Valid() && out == old(data) && data == []
    {
      hide Times, Flat;
      var cs := chunks;
      out := [];
      NoChunks();
      assert cs[..0] == [];
      for i := 0 to |cs|
        modifies {}
        invariant out == Flat(cs[..i])
      {
        FlatNext(cs[..i], cs[i]);
        assert cs[..i + 1] == cs[..i] + [cs[i]];
        out := out + cs[i];
      }
      assert cs[..|cs|] == cs;
      out := out[..n];
      TimesNone(size);
      chunks, n, data := [], 0, [];
    }
  }
}
