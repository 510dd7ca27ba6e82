/** Streaming SHA-256 on the WINC1500 hardware engine: the host buffers partial blocks,
    hands whole blocks to the engine and builds the final padding itself. */
module Sha256 {
  import opened Sequences
  import opened Bytes
  import opened HashRuns
  import opened ModPower

  // ---- Section 5.1.1 and the hash computation of FIPS 180-4, on whole bytes ----

  /** The `n` low-order bytes of `v`, most significant first. */
  function BigEndian(v: nat, n: nat): (r: seq<byte>)
    ensures |r| == n
  {
    if n == 0 then [] else BigEndian(v / 256, n - 1) + [v % 256]
  }

  /** The number of zero bytes that follow the 0x80 byte. */
  function ZeroCount(len: nat): nat { (55 - len) % 64 }

  function Pad(m: seq<byte>): seq<byte> {
    m + [0x80] + Repeat(0, ZeroCount(|m|)) + BigEndian(8 * |m|, 8)
  }

  /** ZeroCount is the smallest count that completes a block. */
  lemma ZeroCountIsLeast(len: nat, k: nat)
    ensures (len + 1 + ZeroCount(len) + 8) % BLOCK == 0
    ensures (len + 1 + k + 8) % BLOCK == 0 ==> ZeroCount(len) <= k
  {
  }

  function DigestBytes(d: Digest): seq<byte> {
    if d == [] then [] else BigEndian(d[0], 4) + DigestBytes(d[1..])
  }

  /** Both put the most significant byte first. */
  lemma {:induction false} BigEndianValue(v: nat, n: nat)
    requires v < Pow(256, n)
    ensures FromBe(BigEndian(v, n)) == v
    decreases n
  {
    if n > 0 {
      BigEndianValue(v / 256, n - 1);
      assert BigEndian(v, n)[..n - 1] == BigEndian(v / 256, n - 1);
    }
  }

  lemma {:induction false} DigestWords(d: Digest, i: nat)
    requires i < |d|
    ensures 4 * i + 4 <= |DigestBytes(d)| == 4 * |d| && FromBe(DigestBytes(d)[4 * i..4 * i + 4]) == d[i]
  {
    var b, rest := BigEndian(d[0], 4), DigestBytes(d[1..]);
    if i > 0 {
      DigestWords(d[1..], i - 1);
      assert DigestBytes(d)[4 * i..4 * i + 4] == rest[4 * (i - 1)..4 * (i - 1) + 4];
    } else {
      if |d| > 1 { DigestWords(d[1..], 0); }
      assert Pow(256, 4) == 256 * Pow(256, 3) == 256 * (256 * Pow(256, 2)) == WORD;
      BigEndianValue(d[0], 4);
      assert DigestBytes(d)[..4] == b;
    }
  }

  // ---- What the host sends: the same padding with a 32-bit length ----

  function HostPad(m: seq<byte>): seq<byte> {
    m + [0x80] + Repeat(0, ZeroCount(|m|) + 4) + BigEndian(8 * |m| % WORD, 4)
  }

  function LowWord(v: nat): seq<byte> {
    [v / 0x100_0000 % 256, v / 0x1_0000 % 256, v / 0x100 % 256, v % 256]
  }

  lemma BigEndianSplit(v: nat, n: nat)
    ensures BigEndian(v, n + 4) == BigEndian(v / WORD, n) + LowWord(v)
  {
    var v1, v2, v3 := v / 0x100, v / 0x1_0000, v / 0x100_0000;
    assert v1 / 256 == v2 && v2 / 256 == v3 && v3 / 256 == v / WORD;
    assert BigEndian(v, n + 4) == BigEndian(v1, n + 3) + [v % 256];
    assert BigEndian(v1, n + 3) == BigEndian(v2, n + 2) + [v1 % 256];
    assert BigEndian(v2, n + 2) == BigEndian(v3, n + 1) + [v2 % 256];
    assert BigEndian(v3, n + 1) == BigEndian(v / WORD, n) + [v3 % 256];
  }

  lemma Mod256(a: nat, k: nat)
    ensures (256 * k + a) % 256 == a % 256
  {
    assert 256 * k + a == 256 * (k + a / 256) + a % 256;
  }

  lemma LowWordOfRemainder(v: nat)
    ensures LowWord(v % WORD) == LowWord(v)
  {
    var k, u := v / WORD, v % WORD;
    assert v == WORD * k + u;
    assert v / 0x100_0000 == 256 * k + u / 0x100_0000;
    assert v / 0x1_0000 == 256 * (256 * k) + u / 0x1_0000;
    assert v / 0x100 == 256 * (0x1_0000 * k) + u / 0x100;
    assert v == 256 * (0x100_0000 * k) + u;
    Mod256(u / 0x100_0000, k);
    Mod256(u / 0x1_0000, 256 * k);
    Mod256(u / 0x100, 0x1_0000 * k);
    Mod256(u, 0x100_0000 * k);
  }

  lemma LowWordZero(w: word)
    ensures LowWord(w) == [0, 0, 0, 0] <==> w == 0
  {
    assert w == 256 * (w / 0x100) + w % 256;
    assert w / 0x100 == 256 * (w / 0x1_0000) + w / 0x100 % 256;
    assert w / 0x1_0000 == 256 * (w / 0x100_0000) + w / 0x1_0000 % 256;
    assert LowWord(w)[0] == w / 0x100_0000 && LowWord(w)[1] == w / 0x1_0000 % 256;
    assert LowWord(w)[2] == w / 0x100 % 256 && LowWord(w)[3] == w % 256;
  }

  /** The host's padding is the standard's exactly for messages below 2^29 bytes. */
  lemma HostPadIsPad(m: seq<byte>)
    requires 8 * |m| < 0x1_0000_0000_0000_0000
    ensures HostPad(m) == Pad(m) <==> |m| < 0x2000_0000
  {
    var v, z := 8 * |m|, ZeroCount(|m|);
    var hi := v / WORD;
    var prefix := m + [0x80] + Repeat(0, z);
    assert HostPad(m) == prefix + [0, 0, 0, 0] + LowWord(v) by {
      BigEndianSplit(v % WORD, 0);
      LowWordOfRemainder(v);
      assert BigEndian(v % WORD, 4) == LowWord(v);
      assert Repeat(0, z + 4) == Repeat(0, z) + [0, 0, 0, 0];
    }
    assert Pad(m) == prefix + LowWord(hi) + LowWord(v) by {
      BigEndianSplit(v, 4);
      BigEndianSplit(hi, 0);
      assert BigEndian(hi, 4) == LowWord(hi);
    }
    SameAround(prefix, [0, 0, 0, 0], LowWord(hi), LowWord(v));
    LowWordZero(hi);
  }

  /** The hash engine and the shared memory it reads, from SHARED_MEM_BASE on. */
  class Engine {
    const f: Compress
    const iv: Digest
    // What it held at first, and the runs since.
    ghost const junk: Digest
    ghost var runs: seq<EngineRun>
    var mem: seq<byte>
    var h: Digest

    constructor (f: Compress, iv: Digest, h: Digest)
      ensures Valid() && this.f == f && this.iv == iv && runs == []
    {
      this.f, this.iv, this.h, mem := f, iv, h, [];
      junk, runs := h, [];
    }

    ghost predicate Valid() reads this {
      WholeBlocks(runs) && h == StateAfter(f, iv, junk, runs)
    }

    method WriteBlock(offset: nat, data: seq<byte>)
      requires offset <= |mem|
      modifies `mem
      ensures mem ==
        old(mem)[..offset] + data + (if offset + |data| < |old(mem)| then old(mem)[offset + |data|..] else [])
    {
      mem := mem[..offset] + data + if offset + |data| < |mem| then mem[offset + |data|..] else [];
    }

    method Run(init: bool, len: nat, ghost owner: nat)
      requires Valid() && len <= |mem| && len % BLOCK == 0
      modifies `h, `runs
      ensures Valid() && runs == old(runs) + [EngineRun(owner, init, mem[..len])]
    {
      h := HashBlocks(f, if init then iv else h, mem[..len]);
      ghost var more := runs + [EngineRun(owner, init, mem[..len])];
      assert more[..|runs|] == runs;
      runs := more;
    }
  }

  /** tstrSHA256HashCtxt, with the message received so far and the part of it given to the engine.
      Several contexts may use one engine. */
  class Context {
    const engine: Engine
    const block: array<byte>
    ghost const id: nat
    var total: word
    var initFlag: bool
    ghost var msg: seq<byte>
    ghost var sent: seq<byte>

    /** m2m_crypto_sha256_hash_init */
    constructor (engine: Engine, ghost id: nat)
      requires engine.Valid() && forall i :: 0 <= i < |engine.runs| ==> engine.runs[i].owner != id
      ensures this.engine == engine && this.id == id && fresh(block) && Valid() && msg == []
    {
      this.engine, this.id := engine, id;
      block := new byte[BLOCK](_ => 0);
      total, initFlag, msg, sent := 0, true, [], [];
      NotYetFed(engine.runs, id);
    }

    /** What is not with the engine is in the buffer. */
    ghost predicate Kept() reads this, block {
      && block.Length == BLOCK
      && total == |msg| % WORD
      && |sent| % BLOCK == 0 && sent + block[..total % BLOCK] == msg
    }

    ghost predicate Valid() reads this, engine, block {
      engine.Valid() && Kept() && Fed(engine.runs, id, initFlag, sent)
    }

    /** The start of an update: complete the partial block, if there is one. When `held`, the
        data did not fill it and stays in the buffer. */
    method TopUp(data: seq<byte>, residual: nat)
      returns (rest: seq<byte>, filled: nat, ghost held: bool, ghost first: seq<byte>)
      requires block.Length == BLOCK && residual < BLOCK
      modifies block, engine`mem
      ensures held ==> rest == [] && filled == 0 && residual + |data| < BLOCK
      ensures held ==> block[..residual + |data|] == old(block[..residual]) + data
      ensures !held ==> first + rest == old(block[..residual]) + data
      ensures filled == 0 ==> first == []
      ensures filled != 0 ==> filled == 1 && |engine.mem| >= |first| == BLOCK && engine.mem[..BLOCK] == first
    {
      rest, filled, held, first := data, 0, false, [];
      if residual != 0 {
        if residual + |data| >= BLOCK {
          var offset := BLOCK - residual;
          Memcpy(block, residual, rest[..offset]);
          rest := rest[offset..];
          engine.WriteBlock(0, block[..]);
          filled, first := 1, block[..];
        } else {
          Memcpy(block, residual, rest);
          rest, held := [], true;
        }
      }
    }

    /** Run the engine on what has been written to its memory. */
    method RunBlocks(nBlocks: nat, ghost data: seq<byte>)
      requires engine.Valid() && Fed(engine.runs, id, initFlag, sent) && |sent| % BLOCK == 0
      requires |data| == nBlocks * BLOCK <= |engine.mem| && engine.mem[..nBlocks * BLOCK] == data
      modifies `initFlag, `sent, engine`h, engine`runs
      ensures engine.Valid() && Fed(engine.runs, id, initFlag, sent) && !initFlag && sent == old(sent) + data
      ensures |sent| % BLOCK == 0
      ensures Only(old(engine.runs), engine.runs, id) && |engine.runs| == |old(engine.runs)| + 1
    {
      var init := initFlag;
      initFlag := false;
      WholeMore(sent, data, nBlocks);
      engine.Run(init, nBlocks * BLOCK, id);
      FedMore(old(engine.runs), engine.runs, EngineRun(id, init, data), init, sent);
      sent := sent + data;
    }

    /** Write the whole blocks to the engine's memory, behind a completed one. */
    method Place(data: seq<byte>, filled: nat, ghost first: seq<byte>)
      returns (nBlocks: nat, rest: seq<byte>, ghost fed: seq<byte>)
      requires filled == 0 ==> first == []
      requires filled != 0 ==> filled == 1 && |engine.mem| >= |first| == BLOCK && engine.mem[..BLOCK] == first
      modifies engine`mem
      ensures fed + rest == first + data && |rest| < BLOCK
      ensures |fed| == nBlocks * BLOCK <= |engine.mem| && engine.mem[..nBlocks * BLOCK] == fed
    {
      rest, fed := data, first;
      nBlocks := |data| / BLOCK;
      if nBlocks != 0 {
        engine.WriteBlock(filled * BLOCK, data[..nBlocks * BLOCK]);
        rest := data[nBlocks * BLOCK..];
        fed := first + data[..nBlocks * BLOCK];
      }
      nBlocks := nBlocks + filled;
      assert engine.mem[..nBlocks * BLOCK] == fed;
    }

    /** The rest of an update: hand all whole blocks to the engine in one run. */
    method Feed(data: seq<byte>, filled: nat, ghost first: seq<byte>)
      returns (rest: seq<byte>, ghost fed: seq<byte>)
      requires engine.Valid() && Fed(engine.runs, id, initFlag, sent) && |sent| % BLOCK == 0
      requires filled == 0 ==> first == []
      requires filled != 0 ==> filled == 1 && |engine.mem| >= |first| == BLOCK && engine.mem[..BLOCK] == first
      modifies `initFlag, `sent, engine
      ensures engine.Valid() && Fed(engine.runs, id, initFlag, sent) && sent == old(sent) + fed
      ensures |sent| % BLOCK == 0 && Only(old(engine.runs), engine.runs, id)
      ensures |engine.runs| == |old(engine.runs)| + if fed == [] then 0 else 1
      ensures fed + rest == first + data && |rest| < BLOCK
    {
      var nBlocks;
      nBlocks, rest, fed := Place(data, filled, first);
      if nBlocks != 0 {
        RunBlocks(nBlocks, fed);
      }
    }

    /** Buffer the bytes that do not fill a block. */
    method Keep(rest: seq<byte>)
      requires |rest| <= block.Length
      modifies block
      ensures block[..|rest|] == rest
      ensures rest == [] ==> block[..] == old(block[..])
    {
      if rest != [] {
        Memcpy(block, 0, rest);
      }
    }

    /** The three parts of an update: `fed` goes to the engine and `tail` to the buffer. */
    method Absorb(data: seq<byte>, residual: nat) returns (ghost fed: seq<byte>, ghost tail: seq<byte>)
      requires engine.Valid() && Fed(engine.runs, id, initFlag, sent) && |sent| % BLOCK == 0
      requires block.Length == BLOCK && residual < BLOCK
      modifies `initFlag, `sent, engine, block
      ensures engine.Valid() && Fed(engine.runs, id, initFlag, sent) && sent == old(sent) + fed && |sent| % BLOCK == 0
      ensures |tail| < BLOCK && block[..|tail|] == tail && fed + tail == old(block[..residual]) + data
      ensures Only(old(engine.runs), engine.runs, id)
      ensures |engine.runs| == |old(engine.runs)| + if |sent| == |old(sent)| then 0 else 1
    {
      ghost var head := block[..residual];
      var rest, filled;
      ghost var held, first;
      rest, filled, held, first := TopUp(data, residual);
      rest, fed := Feed(rest, filled, first);
      Keep(rest);
      tail := if held then head + data else rest;
      assert block[..|tail|] == tail;
      assert fed + tail == head + data;
    }

    /** With the length `next` that the message then has: what is not with the engine is in the buffer. */
    method Carry(data: seq<byte>, ghost next: nat)
      requires Valid() && next == |msg + data| % WORD
      modifies `initFlag, `sent, engine, block
      ensures engine.Valid() && Fed(engine.runs, id, initFlag, sent) && |sent| % BLOCK == 0
      ensures sent + block[..next % BLOCK] == msg + data
      ensures Only(old(engine.runs), engine.runs, id)
      ensures |engine.runs| == |old(engine.runs)| + if |sent| == |old(sent)| then 0 else 1
    {
      ghost var head := block[..total % BLOCK];
      ghost var fed, tail := Absorb(data, total % BLOCK);
      Carried(old(sent), head, data, fed, tail, next);
    }

    /** m2m_crypto_sha256_hash_update, on a chunk of any 16-bit length. */
    method Update(data: seq<byte>)
      requires Valid() && |data| < 0x1_0000
      modifies this, engine, block
      ensures Valid() && msg == old(msg) + data && Only(old(engine.runs), engine.runs, id)
      ensures |engine.runs| == |old(engine.runs)| + if |sent| == |old(sent)| then 0 else 1
    {
      TotalWraps(|msg|, |data|);
      ghost var whole := msg + data;
      var next := (total + |data|) % WORD;
      Carry(data, next);
      total, msg := next, whole;
    }

    /** Build the padding in the block buffer and in shared memory; `last` is what the final
        run will read. */
    method FinalBlocks() returns (nBlocks: nat, ghost last: seq<byte>)
      requires block.Length == BLOCK
      modifies block, engine`mem
      ensures last == PadTail(old(block[..total % BLOCK]), total)
      ensures |last| == nBlocks * BLOCK <= |engine.mem| && engine.mem[..nBlocks * BLOCK] == last
    {
      var offset := total % BLOCK;
      ghost var tail := block[..offset];
      Seal(offset);
      var padding := BLOCK - (offset + 1);
      nBlocks := 1;
      ghost var head := [];
      if padding < 8 {
        head := block[..];
        engine.WriteBlock(0, block[..]);
        Memset(block, 0, 0, BLOCK);
        nBlocks := nBlocks + 1;
      }
      SealedZeros(tail, padding);
      ghost var zeros := block[..BLOCK - 4];
      assert padding < 8 ==> zeros == Repeat(0, BLOCK - 4);
      assert head + zeros == tail + [0x80] + Repeat(0, if padding < 8 then padding + BLOCK - 4 else padding - 4);
      PutLength();
      engine.WriteBlock((nBlocks - 1) * BLOCK, block[..]);
      last := head + block[..];
      Assoc(head, zeros, BigEndian(total * 8 % WORD, 4));
    }

    /** Mark the end of the message and clear the rest of the block. */
    method Seal(offset: nat)
      requires block.Length == BLOCK && offset < BLOCK
      modifies block
      ensures block[..] == old(block[..offset]) + [0x80] + Repeat(0, BLOCK - (offset + 1))
    {
      block[offset] := 0x80;
      Memset(block, offset + 1, 0, BLOCK - (offset + 1));
    }

    /** Pack the bit length at the end of the block. */
    method PutLength()
      requires block.Length == BLOCK
      modifies block
      ensures block[..] == old(block[..BLOCK - 4]) + BigEndian(total * 8 % WORD, 4)
    {
      Memcpy(block, BLOCK - 4, BigEndian(total * 8 % WORD, 4));
    }

    /** m2m_crypto_sha256_hash_finish: the digest is made of the words the engine writes back. */
    method Finish() returns (digest: seq<byte>)
      requires Valid()
      modifies this, engine, block
      ensures engine.Valid() && msg == old(msg) && Fed(engine.runs, id, false, HostPad(msg))
      ensures Only(old(engine.runs), engine.runs, id) && |engine.runs| == |old(engine.runs)| + 1
      ensures digest == DigestBytes(HashBlocks(engine.f, engine.iv, SinceInit(engine.runs)))
    {
      ghost var tail := block[..total % BLOCK];
      LengthOfTail(sent, tail, |msg|);
      PadTailCompletes(sent, tail, total);
      var nBlocks;
      ghost var last;
      nBlocks, last := FinalBlocks();
      RunBlocks(nBlocks, last);
      StateIsSinceInit(engine.f, engine.iv, engine.junk, engine.runs);
      digest := DigestBytes(engine.h);
    }
  }

  /** The zeros up to the length field, in the sealed block or with one more block. */
  lemma SealedZeros(tail: seq<byte>, padding: nat)
    requires |tail| + 1 + padding == BLOCK
    ensures tail + [0x80] + Repeat(0, padding) + Repeat(0, BLOCK - 4) == tail + [0x80] + Repeat(0, padding + BLOCK - 4)
    ensures padding >= 4 ==>
      (tail + [0x80] + Repeat(0, padding))[..BLOCK - 4] == tail + [0x80] + Repeat(0, padding - 4)
  {
  }

  lemma WholeMore(sent: seq<byte>, data: seq<byte>, n: nat)
    requires |sent| % BLOCK == 0 && |data| == n * BLOCK
    ensures n * BLOCK % BLOCK == 0 && |sent + data| % BLOCK == 0
  {
    ModBlock(n, 0);
  }

  /** Bytes fed and bytes kept are the bytes there were. */
  lemma Carried(sent: seq<byte>, head: seq<byte>, data: seq<byte>, fed: seq<byte>, tail: seq<byte>, total: nat)
    requires fed + tail == head + data && |sent + fed| % BLOCK == 0 && |tail| < BLOCK
    requires total == |(sent + head) + data| % WORD
    ensures (sent + head) + data == (sent + fed) + tail
    ensures total % BLOCK == |tail|
  {
    Assoc(sent, head, data);
    Assoc(sent, fed, tail);
    LengthOfTail(sent + fed, tail, |(sent + fed) + tail|);
  }

  /** The padding seen from the last, incomplete block. */
  function PadTail(tail: seq<byte>, total: word): seq<byte>
    requires |tail| < BLOCK
  {
    tail + [0x80] + Repeat(0, (if |tail| < 56 then 59 else 123) - |tail|) + BigEndian(total * 8 % WORD, 4)
  }

  lemma Regroup(s: seq<byte>, t: seq<byte>, a: seq<byte>, b: seq<byte>, c: seq<byte>)
    ensures (s + t) + a + b + c == s + (t + a + b + c)
  {
  }

  lemma TailZeros(len: nat)
    requires len < BLOCK
    ensures ZeroCount(len) + 4 == (if len < 56 then 59 else 123) - len
  {
  }

  lemma ZerosOfTail(n: nat, len: nat)
    requires n % BLOCK == 0
    ensures ZeroCount(n + len) == ZeroCount(len)
  {
  }

  lemma PadTailCompletes(stream: seq<byte>, tail: seq<byte>, total: word)
    requires |stream| % BLOCK == 0 && |tail| < BLOCK
    requires total == (|stream| + |tail|) % WORD
    ensures HostPad(stream + tail) == stream + PadTail(tail, total)
  {
    BitLengthWraps(|stream| + |tail|);
    ZerosOfTail(|stream|, |tail|);
    TailZeros(|tail|);
    Regroup(stream, tail, [0x80], Repeat(0, ZeroCount(|tail|) + 4), BigEndian(total * 8 % WORD, 4));
  }

  function Concat(chunks: seq<seq<byte>>): seq<byte> {
    if chunks == [] then [] else Concat(chunks[..|chunks| - 1]) + chunks[|chunks| - 1]
  }

  /** Hash a message given in any chunks on an engine of its own. */
  method HashChunks(f: Compress, iv: Digest, junk: Digest, chunks: seq<seq<byte>>)
    returns (digest: seq<byte>, ghost runs: seq<EngineRun>)
    requires forall i :: 0 <= i < |chunks| ==> |chunks[i]| < 0x1_0000
    ensures SinceInit(runs) == Own(runs, 0) == HostPad(Concat(chunks))
    ensures |Concat(chunks)| < 0x2000_0000 ==> SinceInit(runs) == Pad(Concat(chunks))
    ensures digest == DigestBytes(HashBlocks(f, iv, HostPad(Concat(chunks))))
    ensures runs != [] && forall i :: 0 <= i < |runs| ==> runs[i].init == (i == 0)
  {
    var engine := new Engine(f, iv, junk);
    var ctx := new Context(engine, 0);
    for i := 0 to |chunks|
      invariant ctx.Valid() && ctx.engine == engine && ctx.id == 0 && fresh(engine) && fresh(ctx) && fresh(ctx.block)
      invariant ctx.msg == Concat(chunks[..i]) && Only([], engine.runs, 0)
    {
      assert chunks[..i+1][..i] == chunks[..i];
      ctx.Update(chunks[i]);
    }
    assert chunks[..|chunks|] == chunks;
    digest := ctx.Finish();
    runs := engine.runs;
    Alone(runs, 0, HostPad(Concat(chunks)));
    if |Concat(chunks)| < 0x2000_0000 {
      HostPadIsPad(Concat(chunks));
    }
  }

  lemma LengthOfTail(stream: seq<byte>, tail: seq<byte>, len: nat)
    requires |stream| % BLOCK == 0 && |tail| < BLOCK && |stream| + |tail| == len
    ensures len % BLOCK == |tail|
    ensures len % WORD % BLOCK == |tail|
  {
    OffsetWraps(len);
    ModBlock(|stream| / BLOCK, |tail|);
  }

  lemma ModBlock(a: nat, r: nat)
    ensures (BLOCK * a + r) % BLOCK == r % BLOCK
  {
    assert BLOCK * a + r == BLOCK * (a + r / BLOCK) + r % BLOCK;
  }

  lemma ModWord(a: nat, r: nat)
    ensures (WORD * a + r) % WORD == r % WORD
  {
    assert WORD * a + r == WORD * (a + r / WORD) + r % WORD;
  }

  /** The 32-bit length keeps the position in the block. */
  lemma OffsetWraps(len: nat)
    ensures len % WORD % BLOCK == len % BLOCK
  {
    ModBlock(0x400_0000 * (len / WORD), len % WORD);
  }

  lemma TotalWraps(len: nat, n: nat)
    ensures (len % WORD + n) % WORD == (len + n) % WORD
  {
    ModWord(len / WORD, len % WORD + n);
  }

  lemma BitLengthWraps(len: nat)
    ensures len % WORD * 8 % WORD == 8 * len % WORD
  {
    var q, r := len / WORD, len % WORD;
    ModWord(8 * q, 8 * r);
    assert 8 * len == WORD * (8 * q) + 8 * r;
  }

  // ---- Several contexts on one engine ----

  lemma AllSent(c: Context)
    requires c.Kept() && |c.msg| == BLOCK
    ensures c.sent == c.msg
  {
    assert c.total % BLOCK == 0;
    assert c.sent + [] == c.sent;
  }

  ghost predicate Sharing(engine: Engine, ctxs: seq<Context>)
    reads engine, set k | 0 <= k < |ctxs| :: ctxs[k], set k | 0 <= k < |ctxs| :: ctxs[k].block
  {
    && (forall k :: 0 <= k < |ctxs| ==> ctxs[k].engine == engine && ctxs[k].id == k && ctxs[k].Valid())
    && (forall j, k :: 0 <= j < k < |ctxs| ==> ctxs[j] != ctxs[k] && ctxs[j].block != ctxs[k].block)
  }

  /** An update of one context leaves the others as they were. */
  method Turn(engine: Engine, ctxs: seq<Context>, j: nat, data: seq<byte>)
    requires Sharing(engine, ctxs) && j < |ctxs| && |data| < 0x1_0000
    modifies engine, ctxs[j], ctxs[j].block
    ensures Sharing(engine, ctxs) && Only(old(engine.runs), engine.runs, j)
    ensures forall k :: 0 <= k < |ctxs| && k != j ==> unchanged(ctxs[k])
    ensures forall k :: 0 <= k < |ctxs| ==> ctxs[k].msg == old(ctxs[k].msg) + if k == j then data else []
  {
    ghost var runs := engine.runs;
    ctxs[j].Update(data);
    forall k | 0 <= k < |ctxs| && k != j ensures ctxs[k].Valid() {
      assert ctxs[k].Kept();
      FedByOthers(runs, engine.runs, j, k, ctxs[k].initFlag, ctxs[k].sent);
    }
  }
}
