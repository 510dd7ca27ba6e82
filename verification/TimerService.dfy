/** What the software timer promises, stated on the history of its events alone: a timer
    is pending from its start until it is stopped or fires, and only the earliest pending
    timer may fire, never before its deadline. */
module TimerService {
  type TimerId = nat

  /** Deadlines and firing times are true (unwrapped) tick counts. `at` is the clock reading
      on which the decision to fire was taken. */
  datatype Event =
    | Started(id: TimerId, due: nat)
    | Stopped(id: TimerId)
    | Fired(id: TimerId, at: nat)

  /** `stamp` is the position of the start in the history: it orders equal deadlines. */
  datatype Deadline = Deadline(due: nat, stamp: nat)

  type Pendings = map<TimerId, Deadline>

  predicate Before(a: Deadline, b: Deadline) {
    a.due < b.due || (a.due == b.due && a.stamp < b.stamp)
  }

  function Apply(p: Pendings, e: Event, stamp: nat): Pendings {
    match e
    case Started(id, due) => p[id := Deadline(due, stamp)]
    case Stopped(id) => p - {id}
    case Fired(id, _) => p - {id}
  }

  function Pending(log: seq<Event>): Pendings {
    if log == [] then map[]
    else
      var k := |log| - 1;
      Apply(Pending(log[..k]), log[k], k)
  }

  ghost predicate LegalEvent(p: Pendings, e: Event) {
    match e
    case Started(id, _) => id !in p
    case Stopped(id) => id in p
    case Fired(id, at) =>
      && id in p
      && p[id].due <= at
      && forall o :: o in p && o != id ==> Before(p[id], p[o])
  }

  ghost predicate LegalAt(log: seq<Event>, k: nat)
    requires k < |log|
  {
    LegalEvent(Pending(log[..k]), log[k])
  }

  /** A history the service allows. */
  ghost predicate Legal(log: seq<Event>) {
    forall k {:trigger LegalAt(log, k)} :: 0 <= k < |log| ==> LegalAt(log, k)
  }

  lemma LegalAppend(log: seq<Event>, e: Event)
    requires Legal(log) && LegalEvent(Pending(log), e)
    ensures Legal(log + [e])
    ensures Pending(log + [e]) == Apply(Pending(log), e, |log|)
  {
    var l := log + [e];
    assert l[..|log|] == log;
    forall k | 0 <= k < |l| ensures LegalAt(l, k) {
      if k < |log| {
        assert LegalAt(log, k);
        assert l[..k] == log[..k];
      }
    }
  }

  /** Every pending timer has a start in the history, untouched since. */
  lemma {:induction false} PendingHasStart(log: seq<Event>, id: TimerId)
    requires id in Pending(log)
    ensures var d := Pending(log)[id];
      && d.stamp < |log|
      && log[d.stamp] == Started(id, d.due)
      && forall j :: d.stamp < j < |log| ==> log[j].id != id
  {
    var k := |log| - 1;
    if log[k].id != id {
      PendingHasStart(log[..k], id);
    }
  }

  /** Each firing answers exactly one start: the latest event of that timer before it is a
      start, whose deadline has been reached. */
  lemma FiringAnswersAStart(log: seq<Event>, k: nat)
    requires Legal(log) && k < |log| && log[k].Fired?
    ensures exists s :: 0 <= s < k && log[s].Started? && log[s].id == log[k].id
                     && log[s].due <= log[k].at
                     && forall j :: s < j < k ==> log[j].id != log[k].id
  {
    var p := Pending(log[..k]);
    assert LegalAt(log, k);
    PendingHasStart(log[..k], log[k].id);
    var s := p[log[k].id].stamp;
    assert log[..k][s] == log[s];
    forall j | s < j < k ensures log[j].id != log[k].id {
      assert log[..k][j] == log[j];
    }
  }

  /** One start leads to at most one firing: between two firings of a timer it was started anew. */
  lemma AtMostOneFiringPerStart(log: seq<Event>, i: nat, k: nat)
    requires Legal(log) && i < k < |log|
    requires log[i].Fired? && log[k].Fired? && log[i].id == log[k].id
    ensures exists s :: i < s < k && log[s].Started? && log[s].id == log[k].id
  {
    FiringAnswersAStart(log, k);
    var s :| 0 <= s < k && log[s].Started? && log[s].id == log[k].id
          && log[s].due <= log[k].at && forall j :: s < j < k ==> log[j].id != log[k].id;
    assert !(s < i);
  }

  /** A stopped timer stays silent until it is started again. */
  lemma NoFiringAfterStop(log: seq<Event>, i: nat, k: nat)
    requires Legal(log) && i < k < |log|
    requires log[i].Stopped? && log[k].Fired? && log[i].id == log[k].id
    ensures exists s :: i < s < k && log[s].Started? && log[s].id == log[k].id
  {
    FiringAnswersAStart(log, k);
    var s :| 0 <= s < k && log[s].Started? && log[s].id == log[k].id
          && log[s].due <= log[k].at && forall j :: s < j < k ==> log[j].id != log[k].id;
    assert !(s < i);
  }

  lemma {:induction false} PendingSurvives(log: seq<Event>, id: TimerId, k: nat)
    requires k <= |log| && id in Pending(log[..k])
    requires forall j :: k <= j < |log| ==> log[j].id != id
    ensures id in Pending(log) && Pending(log)[id] == Pending(log[..k])[id]
    decreases |log|
  {
    if k == |log| {
      assert log[..k] == log;
    } else {
      var m := |log| - 1;
      assert log[..m][..k] == log[..k];
      PendingSurvives(log[..m], id, k);
    }
  }

  /** Firing order over a whole history. Two starts `s1`, `s2` that are both pending when the
      first of them fires (at `k1`): the one that fires has the earlier deadline, and among
      equal deadlines it was started first. */
  lemma FiringOrder(log: seq<Event>, s1: nat, s2: nat, k1: nat)
    requires Legal(log) && s1 < k1 < |log| && s2 < k1 && s1 != s2
    requires log[s1].Started? && log[s2].Started? && log[k1].Fired? && log[k1].id == log[s1].id
    requires forall j :: s1 < j < k1 ==> log[j].id != log[s1].id
    requires forall j :: s2 < j < k1 ==> log[j].id != log[s2].id
    ensures log[s1].due < log[s2].due || (log[s1].due == log[s2].due && s1 < s2)
  {
    StartedIsPending(log, s1, k1);
    StartedIsPending(log, s2, k1);
    assert LegalAt(log, k1);
    assert log[s1].id != log[s2].id;
  }

  lemma StartedIsPending(log: seq<Event>, s: nat, k: nat)
    requires s < k <= |log| && log[s].Started?
    requires forall j :: s < j < k ==> log[j].id != log[s].id
    ensures log[s].id in Pending(log[..k])
    ensures Pending(log[..k])[log[s].id] == Deadline(log[s].due, s)
  {
    var l := log[..k];
    assert l[..s+1][..s] == log[..s] && l[..s+1][s] == log[s];
    PendingSurvives(l, log[s].id, s + 1);
  }
}
