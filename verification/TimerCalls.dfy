/** What calls of the timer API, and callbacks that make such calls, add to the history of a timer
    service: what the driver is held to. */
module TimerCalls {
  import opened WrapTime
  import opened TimerService

  datatype TimerRef = Null | Ref(id: TimerId)

  /** One use of the timer API. */
  datatype Action = DoStart(timer: TimerRef, due: nat) | DoStop(timer: TimerRef)

  /** One step of the world as seen from outside the driver's critical sections. `plan` lists
      what the callbacks run by that interrupt do, one entry per firing. A start tests its arguments
      and writes the expiry field outside its critical section: `before` happens between test and
      write, `between` between the write and the critical section. */
  datatype Op =
    | Idle
    | Interrupt(plan: seq<seq<Action>>, atTest: nat, atIncrement: nat)
    | Client(action: Action, before: seq<Op>, between: seq<Op>)
    | Read

  type Slack = s: nat | 0 < s <= HALF32 - 2 * WRAP16 witness 1

  /** Deadlines the driver can order: less than `slack` overdue, and early enough that the signed
      32-bit comparisons still tell past from future. */
  predicate InWindow(now: nat, due: nat, slack: Slack) {
    now < due + slack && due < now + HALF32 - slack
  }

  /** Which timers have a callback, and how long one may be overdue. */
  datatype Setting = Setting(callbacks: set<TimerId>, slack: Slack)

  // ---- Calls ----

  /** What an action made at time `now`, with timers `p` pending, adds to the history: the API accepts
      a start of an idle timer that has a callback, and a stop of a pending one. */
  function Effect(a: Action, p: Pendings, now: nat, cfg: Setting): seq<Event> {
    match a
    case DoStart(timer, due) =>
      if timer.Ref? && timer.id !in p && timer.id in cfg.callbacks && InWindow(now, due, cfg.slack)
      then [Started(timer.id, due)] else []
    case DoStop(timer) => if timer.Ref? && timer.id in p then [Stopped(timer.id)] else []
  }

  /** The history after actions made one after the other, at `times`. */
  function AfterActions(log: seq<Event>, actions: seq<Action>, times: seq<nat>, cfg: Setting): seq<Event>
    requires |times| == |actions|
  {
    if actions == [] then log
    else
      var k := |actions| - 1;
      var l := AfterActions(log, actions[..k], times[..k], cfg);
      l + Effect(actions[k], Pending(l), times[k], cfg)
  }

  lemma ActionsMore(log: seq<Event>, actions: seq<Action>, times: seq<nat>, cfg: Setting, i: nat, t: nat)
    requires i < |actions| && |times| == i
    ensures var l := AfterActions(log, actions[..i], times, cfg);
      AfterActions(log, actions[..i + 1], times + [t], cfg) == l + Effect(actions[i], Pending(l), t, cfg)
  {
    assert actions[..i + 1][..i] == actions[..i] && (times + [t])[..i] == times;
  }

  /** Instants in order, from `a` to `b`. */
  ghost predicate Within(times: seq<nat>, a: nat, b: nat) {
    && (forall i :: 0 <= i < |times| ==> a <= times[i] <= b)
    && (forall i, j :: 0 <= i < j < |times| ==> times[i] <= times[j])
  }

  /** The action asks for the event. */
  predicate Asks(a: Action, e: Event) {
    match e
    case Started(id, due) => a == DoStart(Ref(id), due)
    case Stopped(id) => a == DoStop(Ref(id))
    case Fired(_, _) => false
  }

  lemma {:induction false} ActionsAsked(log: seq<Event>, actions: seq<Action>, times: seq<nat>, cfg: Setting, k: nat)
    requires |times| == |actions| && |log| <= k < |AfterActions(log, actions, times, cfg)|
    ensures exists i :: 0 <= i < |actions| && Asks(actions[i], AfterActions(log, actions, times, cfg)[k])
    decreases |actions|
  {
    if actions != [] {
      var n := |actions| - 1;
      var l := AfterActions(log, actions[..n], times[..n], cfg);
      if k < |l| {
        ActionsAsked(log, actions[..n], times[..n], cfg, k);
        var i :| 0 <= i < n && Asks(actions[..n][i], l[k]);
        assert Asks(actions[i], l[k]);
      } else {
        assert Asks(actions[n], Effect(actions[n], Pending(l), times[n], cfg)[k - |l|]);
      }
    }
  }

  lemma {:induction false} ActionsExtend(log: seq<Event>, actions: seq<Action>, times: seq<nat>, cfg: Setting)
    requires |times| == |actions|
    ensures log <= AfterActions(log, actions, times, cfg)
    decreases |actions|
  {
    if actions != [] {
      var n := |actions| - 1;
      ActionsExtend(log, actions[..n], times[..n], cfg);
    }
  }

  lemma WithinMore(times: seq<nat>, a: nat, b: nat, t: nat, c: nat)
    requires Within(times, a, b) && a <= b <= t <= c
    ensures Within(times + [t], a, c)
  {
  }

  // ---- Firings ----

  /** A firing, and the instants at which its callback makes its calls. */
  datatype Round = Round(id: TimerId, at: nat, times: seq<nat>)

  /** What the callback of the `i`-th firing does. */
  function Planned(plan: seq<seq<Action>>, i: nat): seq<Action> { if i < |plan| then plan[i] else [] }

  ghost predicate Timed(plan: seq<seq<Action>>, rounds: seq<Round>) {
    forall i :: 0 <= i < |rounds| ==> |rounds[i].times| == |Planned(plan, i)|
  }

  /** The history after these firings, each followed by what its callback does. */
  ghost function AfterRounds(log: seq<Event>, plan: seq<seq<Action>>, rounds: seq<Round>, cfg: Setting): seq<Event>
    requires Timed(plan, rounds)
  {
    if rounds == [] then log
    else
      var k := |rounds| - 1;
      var l := AfterRounds(log, plan, rounds[..k], cfg);
      AfterActions(l + [Fired(rounds[k].id, rounds[k].at)], Planned(plan, k), rounds[k].times, cfg)
  }

  /** Between `a` and `b` the history went from `log` to `log'` by such firings. */
  ghost predicate Drains(log: seq<Event>, log': seq<Event>, plan: seq<seq<Action>>, rounds: seq<Round>,
                         a: nat, b: nat, cfg: Setting) {
    && Timed(plan, rounds) && log' == AfterRounds(log, plan, rounds, cfg)
    && forall i :: 0 <= i < |rounds| ==> a <= rounds[i].at <= b && Within(rounds[i].times, rounds[i].at, b)
  }

  lemma DrainsNothing(log: seq<Event>, plan: seq<seq<Action>>, a: nat, cfg: Setting)
    ensures Drains(log, log, plan, [], a, a, cfg)
  {
  }

  /** One more firing. */
  lemma DrainsMore(log: seq<Event>, l: seq<Event>, plan: seq<seq<Action>>, rounds: seq<Round>, a: nat, b: nat,
                   cfg: Setting, r: Round, c: nat)
    requires Drains(log, l, plan, rounds, a, b, cfg) && a <= r.at <= c && b <= c && Within(r.times, r.at, c)
    requires |r.times| == |Planned(plan, |rounds|)|
    ensures Drains(log, AfterActions(l + [Fired(r.id, r.at)], Planned(plan, |rounds|), r.times, cfg),
                   plan, rounds + [r], a, c, cfg)
  {
    var more := rounds + [r];
    assert more[..|rounds|] == rounds;
  }

  lemma DrainsLater(log: seq<Event>, l: seq<Event>, plan: seq<seq<Action>>, rounds: seq<Round>, a: nat, b: nat,
                    cfg: Setting, a': nat, c: nat)
    requires Drains(log, l, plan, rounds, a, b, cfg) && a' <= a && b <= c
    ensures Drains(log, l, plan, rounds, a', c, cfg)
  {
  }

  /** Some action of the plan asks for the event. */
  ghost predicate Asked(plan: seq<seq<Action>>, e: Event) {
    exists i, j :: 0 <= i < |plan| && 0 <= j < |plan[i]| && Asks(plan[i][j], e)
  }

  lemma {:induction false} RoundsExtend(log: seq<Event>, plan: seq<seq<Action>>, rounds: seq<Round>, cfg: Setting)
    requires Timed(plan, rounds)
    ensures log <= AfterRounds(log, plan, rounds, cfg)
    decreases |rounds|
  {
    if rounds != [] {
      var n := |rounds| - 1;
      var l := AfterRounds(log, plan, rounds[..n], cfg);
      RoundsExtend(log, plan, rounds[..n], cfg);
      ActionsExtend(l + [Fired(rounds[n].id, rounds[n].at)], Planned(plan, n), rounds[n].times, cfg);
    }
  }

  /** No start or stop is recorded that no callback asked for. */
  lemma {:induction false} RoundsAsked(log: seq<Event>, plan: seq<seq<Action>>, rounds: seq<Round>, cfg: Setting,
                                       k: nat)
    requires Timed(plan, rounds) && |log| <= k < |AfterRounds(log, plan, rounds, cfg)|
    ensures var e := AfterRounds(log, plan, rounds, cfg)[k]; e.Fired? || Asked(plan, e)
    decreases |rounds|
  {
    if rounds != [] {
      var n := |rounds| - 1;
      var l := AfterRounds(log, plan, rounds[..n], cfg);
      var fired, actions := l + [Fired(rounds[n].id, rounds[n].at)], Planned(plan, n);
      ActionsExtend(fired, actions, rounds[n].times, cfg);
      if k < |l| {
        RoundsAsked(log, plan, rounds[..n], cfg, k);
      } else if k > |l| {
        ActionsAsked(fired, actions, rounds[n].times, cfg, k);
      }
    }
  }

  // ---- Nothing due is left behind ----

  /** A pending timer that is not pending any more, or not for that start, has fired or was stopped. */
  lemma {:induction false} GoneHasEvent(log: seq<Event>, k: nat, id: TimerId)
    requires Legal(log) && k <= |log| && id in Pending(log[..k])
    requires !(id in Pending(log) && Pending(log)[id] == Pending(log[..k])[id])
    ensures exists j :: k <= j < |log| && log[j].id == id && !log[j].Started?
    decreases |log| - k
  {
    assert log[..|log|] == log;
    if k < |log| {
      assert LegalAt(log, k);
      assert log[..k + 1][..k] == log[..k];
      if log[k].id != id {
        GoneHasEvent(log, k + 1, id);
      }
    }
  }

  /** Every timer of `p` due at `now` has fired since, or was stopped by a callback. */
  ghost predicate AllServed(p: Pendings, now: nat, log: seq<Event>, from: nat, plan: seq<seq<Action>>) {
    forall id :: id in p && p[id].due <= now ==> Served(log, from, plan, id)
  }

  ghost predicate Served(log: seq<Event>, from: nat, plan: seq<seq<Action>>, id: TimerId) {
    exists j :: from <= j < |log| && log[j].id == id && (log[j].Fired? || (log[j].Stopped? && Asked(plan, log[j])))
  }

  /** When firings have gone on until no pending timer is due at `now`, all that were due are served. */
  lemma DrainedServes(log: seq<Event>, log': seq<Event>, plan: seq<seq<Action>>, rounds: seq<Round>, a: nat, b: nat,
                      cfg: Setting, now: nat)
    requires Drains(log, log', plan, rounds, a, b, cfg) && Legal(log')
    requires forall id :: id in Pending(log') ==> Pending(log')[id].due > now
    ensures AllServed(Pending(log), now, log', |log|, plan)
  {
    RoundsExtend(log, plan, rounds, cfg);
    assert log'[..|log|] == log;
    forall id | id in Pending(log) && Pending(log)[id].due <= now ensures Served(log', |log|, plan, id) {
      GoneHasEvent(log', |log|, id);
      var j :| |log| <= j < |log'| && log'[j].id == id && !log'[j].Started?;
      RoundsAsked(log, plan, rounds, cfg, j);
    }
  }

  // ---- Why the interrupt is pending ----

  const FAR := 0x8000

  /** A deadline for which the driver forces the interrupt: due, or so many epochs ahead of the counter
      that the comparison takes it for late. */
  predicate Urgent(due: nat, now: nat, epoch: nat) { due <= now || due / WRAP16 >= epoch + FAR }

  /** With enough slack no deadline in the window is that far ahead. */
  lemma NeverFar(due: nat, now: nat, epoch: nat, slack: Slack)
    requires InWindow(now, due, slack) && slack >= 2 * WRAP16 && now < WRAP16 * (epoch + 2)
    ensures due / WRAP16 < epoch + FAR
  {
  }

  ghost predicate UrgentAt(log: seq<Event>, k: nat, id: TimerId, now: nat, epoch: nat)
    requires k <= |log|
  {
    id in Pending(log[..k]) && Urgent(Pending(log[..k])[id].due, now, epoch)
  }

  /** At some point from `from` on, a timer was pending with such a deadline. */
  ghost predicate WasUrgent(log: seq<Event>, from: nat, now: nat, epoch: nat) {
    exists k: nat, id {:trigger UrgentAt(log, k, id, now, epoch)} ::
      from <= k <= |log| && UrgentAt(log, k, id, now, epoch)
  }

  lemma UrgentNow(log: seq<Event>, id: TimerId, from: nat, now: nat, epoch: nat)
    requires from <= |log| && id in Pending(log) && Urgent(Pending(log)[id].due, now, epoch)
    ensures WasUrgent(log, from, now, epoch)
  {
    assert log[..|log|] == log;
    assert UrgentAt(log, |log|, id, now, epoch);
  }

  lemma StillUrgent(log: seq<Event>, from: nat, now: nat, epoch: nat, m: Moment, n: Moment)
    requires WasUrgent(log, from, now, epoch) && log <= n.log && |m.log| <= from && now <= n.now && m.epoch <= epoch
    ensures WasUrgent(n.log, |m.log|, n.now, m.epoch)
  {
    var k: nat, id :| from <= k <= |log| && UrgentAt(log, k, id, now, epoch);
    assert n.log[..k] == log[..k];
    assert UrgentAt(n.log, k, id, n.now, m.epoch);
  }

  /** The pending bit, the overflows counted, the clock and the history at one instant. */
  datatype Moment = Moment(pend: bool, epoch: nat, now: nat, log: seq<Event>)

  /** From `m` to `n` the interrupt has become pending only because a read counted an overflow or for an
      urgent deadline. */
  ghost predicate Pends(m: Moment, n: Moment) {
    && m.epoch <= n.epoch && m.now <= n.now && m.log <= n.log
    && (n.pend ==> m.pend || m.epoch < n.epoch || WasUrgent(n.log, |m.log|, n.now, m.epoch))
  }

  lemma PendsOn(m: Moment, n: Moment, o: Moment)
    requires Pends(m, n) && Pends(n, o)
    ensures Pends(m, o)
  {
    if o.pend && !m.pend && m.epoch == o.epoch {
      if n.pend {
        StillUrgent(n.log, |m.log|, n.now, m.epoch, m, o);
      } else {
        StillUrgent(o.log, |n.log|, o.now, n.epoch, m, o);
      }
    }
  }

  /** From a moment `n` at which the handler, having cleared the bit, has counted `counted` overflows of
      those since `m`, and readers the others. */
  lemma HandlerPends(m: Moment, n: Moment, o: Moment, counted: nat)
    requires Pends(n, o) && n.log == m.log && n.epoch >= m.epoch + counted
    requires n.pend <==> n.epoch > m.epoch + counted
    ensures o.pend ==> o.epoch > m.epoch + counted || WasUrgent(o.log, |m.log|, o.now, m.epoch)
  {
    if o.pend && o.epoch == m.epoch + counted {
      StillUrgent(o.log, |n.log|, o.now, n.epoch, m, o);
    }
  }

  // ---- Whole runs ----

  /** Somewhere in the step a start asks for this deadline. */
  ghost predicate AsksFor(op: Op, due: nat) {
    && op.Client?
    && (|| (op.action.DoStart? && op.action.due == due)
        || (exists i :: 0 <= i < |op.before| && AsksFor(op.before[i], due))
        || (exists i :: 0 <= i < |op.between| && AsksFor(op.between[i], due)))
  }

  /** A start asks for a deadline out of the window. */
  ghost predicate LeavesWindow(ops: seq<Op>, now: nat, slack: Slack) {
    exists i, due: nat :: 0 <= i < |ops| && AsksFor(ops[i], due) && !InWindow(now, due, slack)
  }

  lemma LeavesWithin(op: Op, ops: seq<Op>, now: nat, slack: Slack)
    requires op.Client? && LeavesWindow(ops, now, slack) && (ops == op.before || ops == op.between)
    ensures LeavesWindow([op], now, slack)
  {
    var i, due: nat :| 0 <= i < |ops| && AsksFor(ops[i], due) && !InWindow(now, due, slack);
    assert AsksFor([op][0], due);
  }

  lemma LeavesItself(op: Op, now: nat, slack: Slack)
    requires op.Client? && op.action.DoStart? && !InWindow(now, op.action.due, slack)
    ensures LeavesWindow([op], now, slack)
  {
    assert AsksFor([op][0], op.action.due);
  }

  lemma LeavesInRun(ops: seq<Op>, i: nat, now: nat, slack: Slack)
    requires i < |ops| && LeavesWindow([ops[i]], now, slack)
    ensures LeavesWindow(ops, now, slack)
  {
  }

  /** The clock, whether the interrupt is requested, and the history. */
  datatype Snap = Snap(now: nat, requested: bool, log: seq<Event>)

  /** What a step does to the history. */
  ghost predicate Stepped(op: Op, s: Snap, s': Snap, cfg: Setting)
    decreases op, 0
  {
    && s.now <= s'.now
    && match op
      case Idle => s'.log == s.log
      case Read => s'.log == s.log
      case Interrupt(plan, _, _) =>
        if s.requested then exists rounds :: Drains(s.log, s'.log, plan, rounds, s.now, s'.now, cfg) else s' == s
      case Client(action, before, between) =>
        if action.DoStop? then s'.log == s.log + Effect(action, Pending(s.log), s.now, cfg)
        else if action.timer.Null? || action.timer.id in Pending(s.log) || action.timer.id !in cfg.callbacks then
          s'.log == s.log
        else exists t, u ::
          && Ran(before, s, t, cfg) && Ran(between, t, u, cfg) && u.now <= s'.now
          && s'.log == u.log + [Started(action.timer.id, action.due)]
  }

  /** A run, step by step. */
  ghost predicate Ran(ops: seq<Op>, s: Snap, s': Snap, cfg: Setting)
    decreases ops, 1
  {
    exists trace: seq<Snap> :: Trace(ops, trace, cfg) && trace[0] == s && trace[|ops|] == s'
  }

  ghost predicate Trace(ops: seq<Op>, trace: seq<Snap>, cfg: Setting)
    decreases ops, 0
  {
    |trace| == |ops| + 1 && forall i :: 0 <= i < |ops| ==> Stepped(ops[i], trace[i], trace[i + 1], cfg)
  }

  lemma RunTraced(ops: seq<Op>, trace: seq<Snap>, cfg: Setting)
    requires |trace| == |ops| + 1 && forall i :: 0 <= i < |ops| ==> Stepped(ops[i], trace[i], trace[i + 1], cfg)
    ensures Ran(ops, trace[0], trace[|ops|], cfg)
  {
    assert Trace(ops, trace, cfg);
  }

  lemma InterruptStepped(op: Op, rounds: seq<Round>, s: Snap, s': Snap, cfg: Setting)
    requires op.Interrupt? && s.requested && s.now <= s'.now
    requires Drains(s.log, s'.log, op.plan, rounds, s.now, s'.now, cfg)
    ensures Stepped(op, s, s', cfg)
  {
  }

  lemma StartStepped(op: Op, s: Snap, t: Snap, u: Snap, s': Snap, cfg: Setting)
    requires op.Client? && op.action.DoStart? && op.action.timer.Ref? && s.now <= s'.now && u.now <= s'.now
    requires op.action.timer.id !in Pending(s.log) && op.action.timer.id in cfg.callbacks
    requires Ran(op.before, s, t, cfg) && Ran(op.between, t, u, cfg)
    requires s'.log == u.log + [Started(op.action.timer.id, op.action.due)]
    ensures Stepped(op, s, s', cfg)
  {
  }
}
