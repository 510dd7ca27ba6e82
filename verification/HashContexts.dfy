/** Several SHA-256 contexts that take turns on the one hash engine. */
module HashContexts {
  import opened Bytes
  import opened HashRuns
  import opened Sha256

  /** What the calls give to one context. */
  function Given(calls: seq<(nat, seq<byte>)>, a: nat): seq<byte> {
    if calls == [] then []
    else
      var last := calls[|calls| - 1];
      Given(calls[..|calls| - 1], a) + if last.0 == a then last.1 else []
  }

  /** New contexts on an engine that has not run yet. */
  method Open(engine: Engine, n: nat) returns (ctxs: seq<Context>)
    requires engine.Valid() && engine.runs == []
    ensures |ctxs| == n && Sharing(engine, ctxs)
    ensures forall c :: 0 <= c < n ==> fresh(ctxs[c]) && fresh(ctxs[c].block) && ctxs[c].msg == []
  {
    ctxs := [];
    for k := 0 to n
      invariant |ctxs| == k && Sharing(engine, ctxs)
      invariant forall c :: 0 <= c < k ==> fresh(ctxs[c]) && fresh(ctxs[c].block) && ctxs[c].msg == []
    {
      ctxs := OpenNext(engine, ctxs);
    }
  }

  method OpenNext(engine: Engine, ctxs: seq<Context>) returns (more: seq<Context>)
    requires engine.Valid() && engine.runs == [] && Sharing(engine, ctxs)
    ensures Sharing(engine, more) && |more| == |ctxs| + 1 && ctxs <= more
    ensures fresh(more[|ctxs|]) && fresh(more[|ctxs|].block) && more[|ctxs|].msg == []
  {
    var ctx := new Context(engine, |ctxs|);
    more := ctxs + [ctx];
  }

  /** `n` contexts on one engine: updates in any order, and then one context is finished. It has given
      the engine its own padded message; the digest is that of what was hashed since the last INIT. */
  method Interleave(f: Compress, iv: Digest, junk: Digest, n: nat, calls: seq<(nat, seq<byte>)>, a: nat)
    returns (digest: seq<byte>, ghost runs: seq<EngineRun>)
    requires a < n && forall i :: 0 <= i < |calls| ==> calls[i].0 < n && |calls[i].1| < 0x1_0000
    ensures WholeBlocks(runs) && Fed(runs, a, false, HostPad(Given(calls, a)))
    ensures digest == DigestBytes(HashBlocks(f, iv, SinceInit(runs)))
  {
    var engine := new Engine(f, iv, junk);
    var ctxs := Open(engine, n);
    for i := 0 to |calls|
      invariant Sharing(engine, ctxs) && fresh(engine)
      invariant forall c :: 0 <= c < n ==> fresh(ctxs[c]) && fresh(ctxs[c].block)
      invariant forall c :: 0 <= c < n ==> ctxs[c].msg == Given(calls[..i], c)
    {
      assert calls[..i + 1][..i] == calls[..i];
      Turn(engine, ctxs, calls[i].0, calls[i].1);
    }
    assert calls[..|calls|] == calls;
    digest := ctxs[a].Finish();
    runs := engine.runs;
  }

  /** Two contexts that start one after the other: the first one goes on from the second one's state,
      and its digest is not that of its message. */
  method FirstIsLost(f: Compress, iv: Digest, junk: Digest, x: seq<byte>, y: seq<byte>)
    returns (digest: seq<byte>, ghost runs: seq<EngineRun>)
    requires |x| == |y| == BLOCK && x != y
    ensures Own(runs, 0) == HostPad(x) && SinceInit(runs) == y + HostPad(x)[BLOCK..] != HostPad(x)
    ensures digest == DigestBytes(HashBlocks(f, iv, SinceInit(runs)))
  {
    var engine := new Engine(f, iv, junk);
    var a := new Context(engine, 0);
    var b := new Context(engine, 1);
    var ctxs := [a, b];
    Turn(engine, ctxs, 0, x);
    ghost var first := engine.runs;
    assert ctxs[1] == b;
    Turn(engine, ctxs, 1, y);
    ghost var second := engine.runs;
    assert ctxs[0] == a;
    AllSent(a);
    AllSent(b);
    OwnMeansRan(second, 0, x);
    OwnMeansRan(second, 1, y);
    Restarted(first, second, 1, y);
    digest := a.Finish();
    runs := engine.runs;
    ghost var rest := Resumed(second, runs, 0, HostPad(x));
    assert HostPad(x)[BLOCK..] == rest;
    assert (y + rest)[..BLOCK] == y && (x + rest)[..BLOCK] == x;
  }
}
