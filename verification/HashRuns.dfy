/** Runs of the WINC1500 hash engine, in which several contexts may take turns. */
module HashRuns {
  import opened Sequences
  import opened Bytes

  const BLOCK := 64
  const WORD := 0x1_0000_0000

  type word = w: int | 0 <= w < 0x1_0000_0000
  type Digest = seq<word>
  /** The engine's compression step; nothing is assumed about it. */
  type Compress = (Digest, seq<byte>) -> Digest

  /** Hashing a whole number of blocks from state `h`. */
  function HashBlocks(f: Compress, h: Digest, s: seq<byte>): Digest
    decreases |s|
  {
    if |s| < BLOCK then h else HashBlocks(f, f(h, s[..BLOCK]), s[BLOCK..])
  }

  lemma {:induction false} HashConcat(f: Compress, h: Digest, a: seq<byte>, b: seq<byte>)
    requires |a| % BLOCK == 0
    ensures HashBlocks(f, h, a + b) == HashBlocks(f, HashBlocks(f, h, a), b)
    decreases |a|
  {
    if a == [] {
      assert a + b == b;
    } else {
      assert (a + b)[..BLOCK] == a[..BLOCK] && (a + b)[BLOCK..] == a[BLOCK..] + b;
      HashConcat(f, f(h, a[..BLOCK]), a[BLOCK..], b);
    }
  }

  /** A run of the engine: whose it was, its INIT bit, and the blocks it was given. */
  datatype EngineRun = EngineRun(owner: nat, init: bool, data: seq<byte>)

  /** The engine's state after some runs: a context does not save or restore it. */
  function StateAfter(f: Compress, iv: Digest, h: Digest, runs: seq<EngineRun>): Digest {
    if runs == [] then h
    else
      var last := runs[|runs| - 1];
      HashBlocks(f, if last.init then iv else StateAfter(f, iv, h, runs[..|runs| - 1]), last.data)
  }

  /** What has been hashed since the last INIT, whoever's it was. */
  function SinceInit(runs: seq<EngineRun>): seq<byte> {
    if runs == [] then []
    else
      var last := runs[|runs| - 1];
      (if last.init then [] else SinceInit(runs[..|runs| - 1])) + last.data
  }

  /** What one context has given to the engine. */
  function Own(runs: seq<EngineRun>, a: nat): seq<byte> {
    if runs == [] then []
    else Own(runs[..|runs| - 1], a) + if runs[|runs| - 1].owner == a then runs[|runs| - 1].data else []
  }

  /** Some run was context `a`'s. */
  ghost predicate Ran(runs: seq<EngineRun>, a: nat) {
    exists i :: 0 <= i < |runs| && runs[i].owner == a
  }

  /** Context `a` has given `own` to the engine, with INIT in its first run and in no other;
      `pending` says that INIT is still to come. */
  ghost predicate Fed(runs: seq<EngineRun>, a: nat, pending: bool, own: seq<byte>) {
    && Own(runs, a) == own && (pending <==> !Ran(runs, a)) && (!pending ==> HasInit(runs))
    && forall i :: 0 <= i < |runs| && runs[i].owner == a ==> (runs[i].init <==> !Ran(runs[..i], a))
  }

  lemma {:induction false} NotYetFed(runs: seq<EngineRun>, a: nat)
    requires forall i :: 0 <= i < |runs| ==> runs[i].owner != a
    ensures Fed(runs, a, true, [])
  {
    if runs != [] {
      NotYetFed(runs[..|runs| - 1], a);
    }
  }

  lemma OwnMeansRan(runs: seq<EngineRun>, a: nat, own: seq<byte>)
    requires Own(runs, a) == own != []
    ensures Ran(runs, a)
  {
    if !Ran(runs, a) {
      NotYetFed(runs, a);
    }
  }

  /** One more run of the context, with INIT if that was to come. */
  lemma FedMore(runs: seq<EngineRun>, more: seq<EngineRun>, r: EngineRun, pending: bool, own: seq<byte>)
    requires Fed(runs, r.owner, pending, own) && r.init == pending && more == runs + [r]
    ensures Fed(more, r.owner, false, own + r.data)
  {
    assert more[..|runs|] == runs && more[|runs|] == r;
    assert forall i :: 0 <= i <= |runs| ==> more[..i] == runs[..i];
    assert forall i :: 0 <= i < |runs| ==> more[i] == runs[i];
  }

  /** One more run of another context. */
  lemma FedOther(runs: seq<EngineRun>, more: seq<EngineRun>, a: nat, pending: bool, own: seq<byte>)
    requires Fed(runs, a, pending, own) && |more| == |runs| + 1 && runs == more[..|runs|]
    requires more[|runs|].owner != a
    ensures Fed(more, a, pending, own)
  {
    assert forall i :: 0 <= i <= |runs| ==> more[..i] == runs[..i];
    assert forall i :: 0 <= i < |runs| ==> more[i] == runs[i];
  }

  /** All runs behind `runs` were context `a`'s. */
  ghost predicate Only(runs: seq<EngineRun>, more: seq<EngineRun>, a: nat) {
    runs <= more && forall i :: |runs| <= i < |more| ==> more[i].owner == a
  }

  /** What one context does leaves the others fed as they were. */
  lemma {:induction false} FedByOthers(runs: seq<EngineRun>, more: seq<EngineRun>, b: nat, a: nat, pending: bool,
                                       own: seq<byte>)
    requires Only(runs, more, b) && a != b && Fed(runs, a, pending, own)
    ensures Fed(more, a, pending, own)
    decreases |more|
  {
    if |more| > |runs| {
      var n := |more| - 1;
      FedByOthers(runs, more[..n], b, a, pending, own);
      FedOther(more[..n], more, a, pending, own);
    } else {
      assert more == runs;
    }
  }

  /** A context alone on the engine. */
  lemma Alone(runs: seq<EngineRun>, a: nat, own: seq<byte>)
    requires Only([], runs, a) && Fed(runs, a, false, own)
    ensures SinceInit(runs) == own && forall i :: 0 <= i < |runs| ==> runs[i].init == (i == 0)
  {
    forall i | 0 <= i < |runs| ensures runs[i].init == (i == 0) {
      assert i > 0 ==> runs[..i][0].owner == a;
    }
    Undisturbed(runs, 0, a);
  }

  ghost predicate WholeBlocks(runs: seq<EngineRun>) {
    forall i :: 0 <= i < |runs| ==> |runs[i].data| % BLOCK == 0
  }

  predicate HasInit(runs: seq<EngineRun>) {
    runs != [] && (runs[|runs| - 1].init || HasInit(runs[..|runs| - 1]))
  }

  lemma {:induction false} StateIsSinceInit(f: Compress, iv: Digest, h: Digest, runs: seq<EngineRun>)
    requires WholeBlocks(runs)
    ensures |SinceInit(runs)| % BLOCK == 0
    ensures StateAfter(f, iv, h, runs) == HashBlocks(f, if HasInit(runs) then iv else h, SinceInit(runs))
    decreases |runs|
  {
    if runs != [] {
      var front, last := runs[..|runs| - 1], runs[|runs| - 1];
      StateIsSinceInit(f, iv, h, front);
      OneMoreRun(f, iv, if HasInit(front) then iv else h, SinceInit(front), last);
    }
  }

  lemma OneMoreRun(f: Compress, iv: Digest, h: Digest, fed: seq<byte>, last: EngineRun)
    requires |fed| % BLOCK == 0 && |last.data| % BLOCK == 0
    ensures HashBlocks(f, if last.init then iv else HashBlocks(f, h, fed), last.data)
         == HashBlocks(f, if last.init then iv else h, (if last.init then [] else fed) + last.data)
    ensures |(if last.init then [] else fed) + last.data| % BLOCK == 0
  {
    if last.init {
      assert [] + last.data == last.data;
    } else {
      HashConcat(f, h, fed, last.data);
    }
  }

  function Words(b: seq<byte>): (w: seq<word>)
    ensures |w| == |b|
  {
    seq(|b|, i requires 0 <= i < |b| => b[i])
  }

  /** A compression that forgets nothing. */
  const KEEP_ALL: Compress := (h: Digest, b: seq<byte>) => h + Words(b)

  lemma {:induction false} KeepsAll(h: Digest, s: seq<byte>)
    requires |s| % BLOCK == 0
    ensures HashBlocks(KEEP_ALL, h, s) == h + Words(s)
    decreases |s|
  {
    if s != [] {
      KeepsAll(h + Words(s[..BLOCK]), s[BLOCK..]);
      assert Words(s) == Words(s[..BLOCK]) + Words(s[BLOCK..]);
    }
  }

  lemma WordsUnique(h: Digest, a: seq<byte>, b: seq<byte>)
    requires h + Words(a) == h + Words(b)
    ensures a == b
  {
    assert (h + Words(a))[|h|..] == Words(a) && (h + Words(b))[|h|..] == Words(b);
    forall i | 0 <= i < |a| ensures a[i] == b[i] {
      assert Words(a)[i] == Words(b)[i];
    }
  }

  lemma {:induction false} OwnIsWhole(runs: seq<EngineRun>, a: nat)
    requires WholeBlocks(runs)
    ensures |Own(runs, a)| % BLOCK == 0
    decreases |runs|
  {
    if runs != [] {
      OwnIsWhole(runs[..|runs| - 1], a);
    }
  }

  /** The engine's state is the hash of what a context gave it, whatever the compression, exactly if
      that is what has been hashed since the last INIT. */
  lemma OwnHashIff(iv: Digest, h: Digest, runs: seq<EngineRun>, a: nat)
    requires WholeBlocks(runs) && HasInit(runs)
    ensures (forall f: Compress :: StateAfter(f, iv, h, runs) == HashBlocks(f, iv, Own(runs, a))) <==>
      SinceInit(runs) == Own(runs, a)
  {
    forall f: Compress ensures StateAfter(f, iv, h, runs) == HashBlocks(f, iv, SinceInit(runs)) {
      StateIsSinceInit(f, iv, h, runs);
    }
    if SinceInit(runs) != Own(runs, a) {
      StateIsSinceInit(KEEP_ALL, iv, h, runs);
      OwnIsWhole(runs, a);
      KeepsAll(iv, SinceInit(runs));
      KeepsAll(iv, Own(runs, a));
      if StateAfter(KEEP_ALL, iv, h, runs) == HashBlocks(KEEP_ALL, iv, Own(runs, a)) {
        WordsUnique(iv, SinceInit(runs), Own(runs, a));
      }
    }
  }

  /** It is, when the context's INIT run was its first and only its own runs came after it. */
  lemma {:induction false} Undisturbed(runs: seq<EngineRun>, k: nat, a: nat)
    requires k < |runs| && runs[k].init && Own(runs[..k], a) == []
    requires forall i :: k <= i < |runs| ==> runs[i].owner == a && (i > k ==> !runs[i].init)
    ensures SinceInit(runs) == Own(runs, a)
    decreases |runs|
  {
    var n := |runs| - 1;
    if k < n {
      assert runs[..n][..k] == runs[..k];
      Undisturbed(runs[..n], k, a);
    }
  }

  /** A context that starts makes all that was before it forgotten. */
  lemma Restarted(runs: seq<EngineRun>, more: seq<EngineRun>, a: nat, own: seq<byte>)
    requires Only(runs, more, a) && !Ran(runs, a) && Fed(more, a, false, own)
    ensures SinceInit(more) == own
  {
    var k := |runs|;
    assert runs == more[..k];
    NotYetFed(runs, a);
    assert k < |more|;
    forall i | k < i < |more| ensures !more[i].init {
      assert more[..i][k].owner == a;
    }
    Undisturbed(more, k, a);
  }

  /** A context that goes on adds to what the engine has hashed, whoever's that was. */
  lemma Resumed(runs: seq<EngineRun>, more: seq<EngineRun>, a: nat, all: seq<byte>) returns (rest: seq<byte>)
    requires Only(runs, more, a) && Ran(runs, a) && Fed(more, a, false, all)
    ensures all == Own(runs, a) + rest && SinceInit(more) == SinceInit(runs) + rest
  {
    var k :| 0 <= k < |runs| && runs[k].owner == a;
    forall i | |runs| <= i < |more| ensures !more[i].init {
      assert more[..i][k].owner == a;
    }
    rest := Continued(runs, more, a);
  }

  lemma {:induction false} Continued(runs: seq<EngineRun>, more: seq<EngineRun>, a: nat) returns (rest: seq<byte>)
    requires Only(runs, more, a)
    requires forall i :: |runs| <= i < |more| ==> !more[i].init
    ensures Own(more, a) == Own(runs, a) + rest && SinceInit(more) == SinceInit(runs) + rest
    decreases |more|
  {
    if |more| == |runs| {
      assert more == runs;
      return [];
    }
    var n := |more| - 1;
    rest := Continued(runs, more[..n], a);
    Assoc(Own(runs, a), rest, more[n].data);
    Assoc(SinceInit(runs), rest, more[n].data);
    rest := rest + more[n].data;
  }

  /** Two contexts that start one after the other break each other: the first one goes on from the
      second one's state. */
  lemma InterleavedContexts(x: seq<byte>, y: seq<byte>, z: seq<byte>)
    requires |x| == |y| == BLOCK && x != y
    ensures var runs := [EngineRun(0, true, x), EngineRun(1, true, y), EngineRun(0, false, z)];
      SinceInit(runs) == y + z && Own(runs, 0) == x + z && y + z != x + z
  {
    var runs := [EngineRun(0, true, x), EngineRun(1, true, y), EngineRun(0, false, z)];
    assert runs[..2] == [EngineRun(0, true, x), EngineRun(1, true, y)];
    assert runs[..2][..1] == [EngineRun(0, true, x)];
    assert runs[..2][..1][..0] == [];
    assert Own(runs[..2][..1], 0) == [] + x && Own(runs[..2], 0) == x + [];
    assert (y + z)[..BLOCK] == y && (x + z)[..BLOCK] == x;
  }
}
