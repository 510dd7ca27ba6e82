/** The hardware timer and the queue of deadlines of the SAMD21 software timer, as values: registers,
    critical sections, how the queue represents a history, and what a read tells. */
module TimerState {
  import opened WrapTime
  import opened TimerService
  import opened TimerCalls
  import TailQueue

  /** A queue node: the fields of `struct hal_timer` that the queue code reads. */
  datatype Entry = Entry(id: TimerId, expiry: nat)

  datatype Rc = Ok | Einval

  /** What becomes of a start: refused by its checks, accepted, cut short because the run ended or its
      deadline left the window, or the queue broken: before or after the expiry was `written`, with
      the timer linked already or not. */
  datatype Outcome = Refused | Accepted | Ended | Broken(written: bool, linked: bool)

  /** Critical-section nesting: the depth, the interrupt state saved by the outermost entry,
      and the global interrupt mask itself. */
  datatype Cpu = Cpu(depth: nat, prevOn: bool, irqOn: bool)

  predicate Masked(c: Cpu) { c.depth > 0 ==> !c.irqOn }

  function Enter(c: Cpu): (r: Cpu)
    requires Masked(c)
    ensures Masked(r) && r.depth > 0
  {
    var saved :=
      if c.depth == 0 then
        if c.irqOn then c.(irqOn := false, prevOn := true) else c.(prevOn := false)
      else c;
    saved.(depth := saved.depth + 1)
  }

  function Leave(c: Cpu): (r: Cpu)
    requires c.depth > 0 && Masked(c)
    ensures Masked(r)
  {
    var d := c.depth - 1;
    if d == 0 && c.prevOn then Cpu(d, c.prevOn, true) else c.(depth := d)
  }

  /** `r` is `c` again for every later critical section: only the saved state of an idle
      processor may differ. */
  predicate Balanced(c: Cpu, r: Cpu) {
    r.depth == c.depth && r.irqOn == c.irqOn && (c.depth > 0 ==> r.prevOn == c.prevOn)
  }

  /** A critical section restores the interrupt mask, at every nesting depth, whatever
      balanced sections ran inside it. */
  lemma CriticalSectionBalanced(c: Cpu, inner: Cpu)
    requires Masked(c) && Balanced(Enter(c), inner)
    ensures !inner.irqOn && Balanced(c, Leave(inner))
  {
  }

  /** The registers of the timer peripheral and its interrupt line. The 16-bit count register
      is `now % WRAP16`; the overflow interrupt is always enabled; `pend` is the NVIC pending
      bit as set by software. */
  datatype Hw = Hw(now: nat, ovf: bool, mc0: bool, mc0En: bool, cc0: nat, pend: bool)

  function Count(h: Hw): nat { h.now % WRAP16 }

  /** One count of the timer clock. */
  function Tick(h: Hw): Hw {
    var now := h.now + 1;
    h.(now := now, ovf := h.ovf || now % WRAP16 == 0, mc0 := h.mc0 || now % WRAP16 == h.cc0)
  }

  /** Every wrap of the hardware count is either still flagged or counted, exactly once. */
  predicate EpochOk(h: Hw, epoch: nat) {
    h.now / WRAP16 == epoch + if h.ovf then 1 else 0
  }

  /** The interrupt controller will enter the handler as soon as interrupts are unmasked. */
  predicate IrqRequested(h: Hw) {
    h.pend || h.ovf || (h.mc0 && h.mc0En)
  }

  /** The wake-up for deadline `due` is under way: already requested, armed in the compare
      register with the count still below it, or behind an overflow yet to come. */
  predicate Woken(h: Hw, epoch: nat, due: nat) {
    || IrqRequested(h)
    || (h.mc0En && h.cc0 == due % WRAP16 && epoch == due / WRAP16 && h.now < due)
    || (!h.ovf && epoch < due / WRAP16)
  }

  /** The compare channel for a deadline: on, and at it, exactly in the epoch of the deadline. */
  predicate Armed(h: Hw, epoch: nat, due: nat) {
    h.mc0En == (epoch == due / WRAP16) && (h.mc0En ==> h.cc0 == due % WRAP16)
  }

  /** Times in order of their epochs, and of their counts within one. */
  lemma EpochsApart(now: nat, due: nat)
    ensures now / WRAP16 > due / WRAP16 ==> now > due
    ensures now / WRAP16 == due / WRAP16 ==> (now >= due <==> now % WRAP16 >= due % WRAP16)
  {
  }

  /** The driver's comparison of a deadline with its counter tells the epochs apart, but for those half
      the range ahead, which it takes for late. */
  lemma EpochDelta(h: Hw, epoch: nat, due: nat, slack: Slack)
    requires EpochOk(h, epoch) && InWindow(h.now, due, slack)
    ensures Wrap(due) % WRAP16 == due % WRAP16
    ensures var delta := SDiff(Wrap(due) - Wrap(due) % WRAP16, Wrap(WRAP16 * epoch));
      && (delta < 0 <==> due / WRAP16 < epoch || due / WRAP16 >= epoch + FAR) && (delta == 0 <==> due / WRAP16 == epoch)
  {
    EpochBase(due);
    EpochsDelta(due / WRAP16, epoch);
  }

  lemma EpochsDelta(a: nat, b: nat)
    requires -FAR < a - b < 2 * FAR
    ensures var delta := SDiff(Wrap(WRAP16 * a), Wrap(WRAP16 * b));
      (delta < 0 <==> a < b || a >= b + FAR) && (delta == 0 <==> a == b)
  {
    var d := WRAP16 * (a - b);
    WrapSub(WRAP16 * a, WRAP16 * b);
    if a < b {
      WrapShift(d, 1);
    }
  }

  /** A timer started at time 65535 for 2^31 - 2 ticks later is taken for late. */
  lemma FarIsTakenForLate()
    ensures InWindow(0xffff, 0xffff + HALF32 - 2, 1)
    ensures var due := 0xffff + HALF32 - 2; SDiff(Wrap(due) - Wrap(due) % WRAP16, 0) < 0
  {
    EpochDelta(Hw(0xffff, false, false, false, 0, false), 0, 0xffff + HALF32 - 2, 1);
  }

  lemma WokenByDeadline(h: Hw, epoch: nat, due: nat)
    requires EpochOk(h, epoch) && Woken(h, epoch, due) && due <= h.now
    ensures IrqRequested(h)
  {
    assert due / WRAP16 <= h.now / WRAP16;
  }

  lemma TickKeeps(h: Hw, epoch: nat)
    requires EpochOk(h, epoch) && !(h.ovf && (h.now + 1) % WRAP16 == 0)
    ensures EpochOk(Tick(h), epoch)
    ensures forall d :: Woken(h, epoch, d) ==> Woken(Tick(h), epoch, d)
  {
    var h' := Tick(h);
    forall d: nat | Woken(h, epoch, d) ensures Woken(h', epoch, d) {
      if !IrqRequested(h) && h.mc0En && epoch == d / WRAP16 && h.now < d {
        assert h'.now <= d;
      }
    }
  }

  /** The first time after `now` at which the count is `cc0`. */
  function NextMatch(now: nat, cc0: nat): nat {
    var base := now - now % WRAP16;
    if now % WRAP16 < cc0 then base + cc0 else base + WRAP16 + cc0
  }

  lemma MatchReaches(now: nat, due: nat)
    requires now / WRAP16 >= due / WRAP16
    ensures NextMatch(now, due % WRAP16) >= due
  {
  }

  lemma MatchTick(from: nat, now: nat, cc0: nat)
    requires from < now && now % WRAP16 == cc0
    ensures now >= NextMatch(from, cc0)
  {
  }

  /** Time went from `h` to `h'` with nothing else touching the registers. */
  ghost predicate Elapsed(h: Hw, h': Hw, epoch: nat) {
    && EpochOk(h', epoch)
    && h'.now >= h.now
    && h' == h.(now := h'.now, ovf := h'.ovf, mc0 := h'.mc0)
    && (h.ovf ==> h'.ovf)
    && (h'.now == h.now ==> h' == h)
    && (h'.mc0 ==> h.mc0 || h'.now >= NextMatch(h.now, h.cc0))
    && forall d :: Woken(h, epoch, d) ==> Woken(h', epoch, d)
  }

  ghost predicate Timely(now: nat, p: Pendings, slack: Slack) {
    forall id :: id in p ==> InWindow(now, p[id].due, slack)
  }

  lemma TimelyMore(now: nat, p: Pendings, slack: Slack, id: TimerId, d: Deadline)
    requires Timely(now, p, slack) && InWindow(now, d.due, slack)
    ensures Timely(now, p[id := d], slack)
  {
  }

  ghost predicate History(log: seq<Event>, p: Pendings) {
    Legal(log) && p == Pending(log)
  }

  /** Every pending timer is in the queue. */
  ghost predicate Queued(q: seq<Entry>, id: TimerId) {
    exists i :: 0 <= i < |q| && q[i].id == id
  }

  predicate Sorted(q: seq<Entry>, p: Pendings, i: nat, j: nat)
    requires i < |q| && j < |q| && q[i].id in p && q[j].id in p
  {
    Before(p[q[i].id], p[q[j].id])
  }

  /** `q` lists exactly the pending timers, by deadline and then by order of start. */
  ghost predicate Represents(q: seq<Entry>, p: Pendings) {
    && (forall i :: 0 <= i < |q| ==> q[i].id in p && q[i].expiry == Wrap(p[q[i].id].due))
    && (forall i, j {:trigger Sorted(q, p, i, j)} :: 0 <= i < j < |q| ==> Sorted(q, p, i, j))
    && (forall id {:trigger Queued(q, id)} :: id in p ==> Queued(q, id))
  }

  function Ids(q: seq<Entry>): (s: seq<TimerId>)
    ensures |s| == |q| && forall i :: 0 <= i < |q| ==> s[i] == q[i].id
  {
    seq(|q|, i requires 0 <= i < |q| => q[i].id)
  }

  /** The linked timers and their expiry fields are the entries of `q`. */
  ghost predicate Threaded(tq: TailQueue.Queue, expiry: map<TimerId, nat>, q: seq<Entry>) {
    TailQueue.Holds(tq, Ids(q)) && forall i :: 0 <= i < |q| ==> q[i].id in expiry && expiry[q[i].id] == q[i].expiry
  }

  lemma DistinctIds(q: seq<Entry>, p: Pendings, i: nat, j: nat)
    requires Represents(q, p) && i < |q| && j < |q| && q[i].id == q[j].id
    ensures i == j
  {
    var _ := Sorted(q, p, i, j);
    var _ := Sorted(q, p, j, i);
  }

  lemma AllDistinct(q: seq<Entry>, p: Pendings)
    requires Represents(q, p)
    ensures TailQueue.Distinct(Ids(q))
  {
    forall i, j | 0 <= i < j < |q| ensures Ids(q)[i] != Ids(q)[j] {
      if q[i].id == q[j].id { DistinctIds(q, p, i, j); }
    }
  }

  lemma InsertThreads(tq: TailQueue.Queue, expiry: map<TimerId, nat>, q: seq<Entry>, p: Pendings, k: nat, e: Entry)
    requires Threaded(tq, expiry, q) && Represents(q, p) && k <= |q| && e.id !in p
    requires e.id in expiry && expiry[e.id] == e.expiry
    ensures Threaded(TailQueue.InsertAt(tq, Ids(q), k, e.id), expiry, q[..k] + [e] + q[k..])
  {
    AllDistinct(q, p);
    TailQueue.InsertKeeps(tq, Ids(q), k, e.id);
    assert Ids(q[..k] + [e] + q[k..]) == TailQueue.Inserted(Ids(q), k, e.id);
  }

  /** A timer inserted a second time, at another place, is in no queue of all pending timers. */
  lemma TwiceIsNotThreaded(tq: TailQueue.Queue, expiry: map<TimerId, nat>, q: seq<Entry>, p: Pendings, k: nat, m: nat,
                           d: Deadline)
    requires Threaded(tq, expiry, q) && Represents(q, p) && k <= |q| && m < |q| && k != m
    ensures forall q': seq<Entry> :: Represents(q', p[q[m].id := d]) ==>
      !Threaded(TailQueue.InsertAt(tq, Ids(q), k, q[m].id), expiry, q')
  {
    AllDistinct(q, p);
    forall q': seq<Entry> | Represents(q', p[q[m].id := d])
      ensures !TailQueue.Holds(TailQueue.InsertAt(tq, Ids(q), k, q[m].id), Ids(q'))
    {
      forall x | x in Ids(q) ensures x in Ids(q') {
        assert Queued(q', x);
        var i :| 0 <= i < |q'| && q'[i].id == x;
        assert Ids(q')[i] == x;
      }
      TailQueue.InsertTwiceBreaks(tq, Ids(q), k, m, Ids(q'));
    }
  }

  /** With an idle timer inserted, the links are not those of the other pending timers. */
  lemma InsertedIsNotThreaded(tq: TailQueue.Queue, expiry: map<TimerId, nat>, q: seq<Entry>, p: Pendings, k: nat,
                              id: TimerId)
    requires Threaded(tq, expiry, q) && Represents(q, p) && k <= |q| && id !in p
    ensures forall q': seq<Entry> :: Represents(q', p) ==> !Threaded(TailQueue.InsertAt(tq, Ids(q), k, id), expiry, q')
  {
    AllDistinct(q, p);
    TailQueue.InsertKeeps(tq, Ids(q), k, id);
    var t, ids := TailQueue.InsertAt(tq, Ids(q), k, id), TailQueue.Inserted(Ids(q), k, id);
    forall q': seq<Entry> | Represents(q', p) ensures !TailQueue.Holds(t, Ids(q')) {
      if TailQueue.Holds(t, Ids(q')) {
        assert ids[k] == id && forall i :: 0 <= i < |q'| ==> Ids(q')[i] != id;
        TailQueue.HoldsOne(t, ids, Ids(q'), 0);
      }
    }
  }

  lemma RemoveThreads(tq: TailQueue.Queue, expiry: map<TimerId, nat>, q: seq<Entry>, p: Pendings, k: nat)
    requires Threaded(tq, expiry, q) && Represents(q, p) && k < |q|
    ensures q[k].id in tq.prev && Threaded(TailQueue.Remove(tq, q[k].id), expiry, q[..k] + q[k+1..])
  {
    AllDistinct(q, p);
    TailQueue.RemoveKeeps(tq, Ids(q), k);
    assert Ids(q[..k] + q[k+1..]) == TailQueue.Removed(Ids(q), k);
  }

  lemma RemoveKeepsOrder(q: seq<Entry>, p: Pendings, k: nat)
    requires Represents(q, p) && k < |q|
    ensures Represents(q[..k] + q[k+1..], p - {q[k].id})
  {
    var id := q[k].id;
    var q', p' := q[..k] + q[k+1..], p - {q[k].id};
    forall i | 0 <= i < |q'| ensures q'[i].id in p' && q'[i].expiry == Wrap(p'[q'[i].id].due) {
      var i0 := if i < k then i else i + 1;
      assert q'[i] == q[i0];
      if q'[i].id == id { DistinctIds(q, p, i0, k); }
    }
    forall i, j | 0 <= i < j < |q'| ensures Sorted(q', p', i, j) {
      var i0, j0 := if i < k then i else i + 1, if j < k then j else j + 1;
      assert q'[i] == q[i0] && q'[j] == q[j0];
      assert Sorted(q, p, i0, j0);
    }
    forall o | o in p' ensures Queued(q', o) {
      assert Queued(q, o);
      var i :| 0 <= i < |q| && q[i].id == o;
      assert q'[if i < k then i else i - 1] == q[i];
    }
  }

  lemma InsertKeepsOrder(q: seq<Entry>, p: Pendings, k: nat, id: TimerId, d: Deadline)
    requires Represents(q, p) && k <= |q| && id !in p
    requires forall i :: 0 <= i < k ==> Before(p[q[i].id], d)
    requires k < |q| ==> Before(d, p[q[k].id])
    ensures Represents(q[..k] + [Entry(id, Wrap(d.due))] + q[k..], p[id := d])
  {
    var q', p' := q[..k] + [Entry(id, Wrap(d.due))] + q[k..], p[id := d];
    forall i | 0 <= i < |q'| ensures q'[i].id in p' && q'[i].expiry == Wrap(p'[q'[i].id].due) {
      assert q'[i] == if i < k then q[i] else if i == k then Entry(id, Wrap(d.due)) else q[i-1];
    }
    forall i, j | 0 <= i < j < |q'| ensures Sorted(q', p', i, j) {
      assert q'[i] == if i < k then q[i] else if i == k then Entry(id, Wrap(d.due)) else q[i-1];
      assert q'[j] == if j < k then q[j] else if j == k then Entry(id, Wrap(d.due)) else q[j-1];
      if i == k {
        assert j == k + 1 || Sorted(q, p, k, j - 1);
      } else if j != k {
        assert Sorted(q, p, if i < k then i else i - 1, if j < k then j else j - 1);
      }
    }
    forall o | o in p' ensures Queued(q', o) {
      if o == id {
        assert q'[k].id == id;
      } else {
        assert Queued(q, o);
        var i :| 0 <= i < |q| && q[i].id == o;
        assert q'[if i < k then i else i + 1] == q[i];
      }
    }
  }

  lemma StartKeepsHistory(log: seq<Event>, p: Pendings, q: seq<Entry>, k: nat, id: TimerId, d: Deadline)
    requires History(log, p) && Represents(q, p) && k <= |q| && id !in p && d.stamp == |log|
    requires forall i :: 0 <= i < k ==> p[q[i].id].due <= d.due
    requires k < |q| ==> d.due < p[q[k].id].due
    ensures History(log + [Started(id, d.due)], p[id := d])
    ensures Represents(q[..k] + [Entry(id, Wrap(d.due))] + q[k..], p[id := d])
  {
    forall i | 0 <= i < k ensures Before(p[q[i].id], d) {
      PendingHasStart(log, q[i].id);
    }
    InsertKeepsOrder(q, p, k, id, d);
    LegalAppend(log, Started(id, d.due));
  }

  lemma FirstIsEarliest(q: seq<Entry>, p: Pendings)
    requires Represents(q, p) && q != []
    ensures forall o :: o in p && o != q[0].id ==> Before(p[q[0].id], p[o])
  {
    forall o | o in p && o != q[0].id ensures Before(p[q[0].id], p[o]) {
      assert Queued(q, o);
      var i :| 0 <= i < |q| && q[i].id == o;
      assert Sorted(q, p, 0, i);
    }
  }

  lemma EpochsDiffer(e: nat)
    ensures Wrap(WRAP16 * e) != Wrap(WRAP16 * (e + 1))
  {
    WrapAdd(WRAP16 * e, WRAP16);
  }

  /** The delay loop's comparison ends too early at a reading `t` exactly when fewer than
      ticks - 2^31 ticks have passed since the first reading. */
  lemma DelayExit(from: nat, t: nat, ticks: nat)
    requires from <= t && ticks < WRAP32
    ensures SDiff(Wrap(t), Wrap(from + ticks)) > 0 && t <= from + ticks <==> t - from < ticks - HALF32
  {
    var d := t - (from + ticks);
    if d >= -HALF32 {
      if d < HALF32 { SDiffIsTrueDifference(t, from + ticks); }
    } else {
      WrapSub(t, from + ticks);
      WrapShift(d, 1);
    }
  }

  /** A request of 2^31 + 1 ticks returns at once when both readings fall on one tick, and goes on
      when a tick lies between them. */
  lemma DelayTooLong(from: nat)
    ensures SDiff(Wrap(from), Wrap(from + HALF32 + 1)) > 0
    ensures SDiff(Wrap(from + 1), Wrap(from + HALF32 + 1)) <= 0
  {
    DelayExit(from, from, HALF32 + 1);
    DelayExit(from, from + 1, HALF32 + 1);
  }

  // ---- Reads inside the interrupt handler ----

  /** How many times others read the timer at the three points of the handler. */
  datatype Readers = Readers(atTest: nat, atClear: nat, atIncrement: nat)

  /** A read that took from `from` to `to` and returned `value`, the time `t` or one derived from it. */
  datatype Reading = Reading(from: nat, to: nat, value: nat, t: nat)

  datatype Reads = Reads(atTest: seq<Reading>, atClear: seq<Reading>, atIncrement: seq<Reading>)

  /** The value is the time at some instant of the read, `lag` wraps before. */
  ghost predicate Tells(r: Reading, lag: nat) {
    r.from <= r.t <= r.to && WRAP16 * lag <= r.t && r.value == Wrap(r.t - WRAP16 * lag)
  }

  /** Some instant of the read had this time. */
  ghost predicate Linearizable(r: Reading) {
    exists t: nat :: r.from <= t <= r.to && r.value == Wrap(t)
  }

  ghost predicate AllExact(told: seq<Reading>) {
    forall i :: 0 <= i < |told| ==> Linearizable(told[i])
  }

  /** Each value is a wrap too early, and no instant of a read shorter than that had this time. */
  ghost predicate AllLate(told: seq<Reading>) {
    forall i :: 0 <= i < |told| ==>
      Tells(told[i], 1) && (told[i].to - told[i].from < WRAP16 ==> !Linearizable(told[i]))
  }

  lemma LateIsNotLinearizable(r: Reading)
    requires Tells(r, 1) && r.to - r.from < WRAP16
    ensures !Linearizable(r)
  {
    forall t: nat | r.from <= t <= r.to ensures r.value != Wrap(t) {
      var d := t - (r.t - WRAP16);
      WrapSub(t, r.t - WRAP16);
      assert 0 < d < WRAP32;
    }
  }

  lemma AllTold(told: seq<Reading>, lag: nat)
    requires lag <= 1 && forall i :: 0 <= i < |told| ==> Tells(told[i], lag)
    ensures lag == 0 ==> AllExact(told)
    ensures lag == 1 ==> AllLate(told)
  {
    forall i | 0 <= i < |told|
      ensures lag == 0 ==> Linearizable(told[i])
      ensures lag == 1 && told[i].to - told[i].from < WRAP16 ==> !Linearizable(told[i])
    {
      if lag == 0 {
        assert told[i].value == Wrap(told[i].t);
      } else if told[i].to - told[i].from < WRAP16 {
        LateIsNotLinearizable(told[i]);
      }
    }
  }

  /** The read as a function of the registers and the counter, when no time passes in it. */
  function ReadAtOnce(h: Hw, c: nat): (r: (nat, Hw, nat)) {
    if h.ovf then (Wrap(c + WRAP16) + Count(h), h.(ovf := false, pend := true), Wrap(c + WRAP16))
    else (c + Count(h), h, c)
  }

  /** Time 65536, flag set and tested: a reader before the flag is cleared counts the overflow, and
      the handler counts it again, so that every later read is a wrap ahead. */
  lemma CountedTwice()
    ensures var h := Hw(WRAP16, true, false, false, 0, false);
      var (v, h', c) := ReadAtOnce(h, 0);
      v == WRAP16 && !h'.ovf && ReadAtOnce(h', Wrap(c + WRAP16)).0 == 2 * WRAP16
  {
  }

  /** Time 65536, flag tested and cleared, not yet counted: a reader is told time 0. */
  lemma ReadsBackwards()
    ensures ReadAtOnce(Hw(WRAP16, false, false, false, 0, false), 0).0 == 0
  {
  }
}
