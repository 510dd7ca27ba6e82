/** The tail queue of <sys/queue.h> that links the timers: cells that hold references, back
    references to cells, and the place of the last cell. A sequence is what a walk along it sees. */
module TailQueue {
  type Id = nat

  datatype Link = Null | To(id: Id)

  /** A cell: the head's first element, or the next field of an element. */
  datatype Loc = First | NextOf(id: Id)

  /** `prev` is the field tqe_prev of each element, `last` the field tqh_last of the head. */
  datatype Queue = Queue(cell: map<Loc, Link>, prev: map<Id, Loc>, last: Loc)

  const EMPTY := Queue(map[First := Null], map[], First)

  function Cell(t: Queue, l: Loc): Link { if l in t.cell then t.cell[l] else Null }

  /** The cell that refers to the `i`-th element of a sequence. */
  function At(q: seq<Id>, i: nat): Loc
    requires i <= |q|
  {
    if i == 0 then First else NextOf(q[i - 1])
  }

  /** The `i`-th element is referred to from its cell, and refers back to it. */
  predicate LinkedAt(t: Queue, q: seq<Id>, i: nat)
    requires i < |q|
  {
    Cell(t, At(q, i)) == To(q[i]) && q[i] in t.prev && t.prev[q[i]] == At(q, i)
  }

  /** A walk along the queue sees `q`, and the back references and the last cell agree. */
  ghost predicate Holds(t: Queue, q: seq<Id>) {
    && (forall i {:trigger LinkedAt(t, q, i)} :: 0 <= i < |q| ==> LinkedAt(t, q, i))
    && Cell(t, At(q, |q|)) == Null && t.last == At(q, |q|)
  }

  ghost predicate Distinct(q: seq<Id>) {
    forall i, j :: 0 <= i < j < |q| ==> q[i] != q[j]
  }

  /** TAILQ_INSERT_HEAD on an empty queue. */
  function InsertHead(t: Queue, x: Id): Queue {
    Queue(t.cell[NextOf(x) := Cell(t, First)][First := To(x)], t.prev[x := First], NextOf(x))
  }

  /** TAILQ_INSERT_BEFORE */
  function InsertBefore(t: Queue, e: Id, x: Id): Queue
    requires e in t.prev
  {
    var p := t.prev[e];
    Queue(t.cell[NextOf(x) := To(e)][p := To(x)], t.prev[x := p][e := NextOf(x)], t.last)
  }

  /** TAILQ_INSERT_TAIL */
  function InsertTail(t: Queue, x: Id): Queue {
    Queue(t.cell[NextOf(x) := Null][t.last := To(x)], t.prev[x := t.last], NextOf(x))
  }

  /** TAILQ_REMOVE */
  function Remove(t: Queue, x: Id): Queue
    requires x in t.prev
  {
    var next, p := Cell(t, NextOf(x)), t.prev[x];
    Queue(t.cell[p := next], if next.To? then t.prev[next.id := p] else t.prev, if next.To? then t.last else p)
  }

  /** What start does once it knows the position. */
  function InsertAt(t: Queue, q: seq<Id>, k: nat, x: Id): Queue
    requires Holds(t, q) && k <= |q|
  {
    if q == [] then InsertHead(t, x)
    else if k < |q| then (assert LinkedAt(t, q, k); InsertBefore(t, q[k], x))
    else InsertTail(t, x)
  }

  lemma AtIsUnique(q: seq<Id>, i: nat, j: nat)
    requires Distinct(q) && i <= |q| && j <= |q| && i != j
    ensures At(q, i) != At(q, j)
  {
  }

  /** A walk sees one sequence. */
  lemma {:induction false} HoldsOne(t: Queue, a: seq<Id>, b: seq<Id>, n: nat)
    requires Holds(t, a) && Holds(t, b) && n <= |a| && n <= |b| && a[..n] == b[..n]
    ensures a == b
    decreases |a| - n
  {
    assert n > 0 ==> a[n - 1] == a[..n][n - 1] && b[n - 1] == b[..n][n - 1];
    assert At(a, n) == At(b, n);
    if n < |a| { assert LinkedAt(t, a, n); }
    if n < |b| { assert LinkedAt(t, b, n); }
    if n < |a| {
      assert a[..n + 1] == a[..n] + [a[n]] && b[..n + 1] == b[..n] + [b[n]];
      HoldsOne(t, a, b, n + 1);
    } else {
      assert a == a[..n] && b == b[..n];
    }
  }

  function Inserted(q: seq<Id>, k: nat, x: Id): (r: seq<Id>)
    requires k <= |q|
    ensures |r| == |q| + 1
  {
    q[..k] + [x] + q[k..]
  }

  /** What an insertion writes. */
  lemma InsertWrites(t: Queue, q: seq<Id>, k: nat, x: Id)
    requires Holds(t, q) && k <= |q|
    ensures var t', next := InsertAt(t, q, k, x), if k < |q| then To(q[k]) else Null;
      && t'.cell == t.cell[NextOf(x) := next][At(q, k) := To(x)]
      && t'.prev == (if k < |q| then t.prev[x := At(q, k)][q[k] := NextOf(x)] else t.prev[x := At(q, k)])
      && t'.last == if k < |q| then t.last else NextOf(x)
  {
    if k < |q| { assert LinkedAt(t, q, k); }
  }

  /** The cell of each element after an insertion. */
  lemma InsertedAt(q: seq<Id>, k: nat, x: Id, i: nat)
    requires k <= |q| && i <= |q| + 1
    ensures At(Inserted(q, k, x), i) == if i <= k then At(q, i) else if i == k + 1 then NextOf(x) else At(q, i - 1)
    ensures i <= |q| ==> Inserted(q, k, x)[i] == if i < k then q[i] else if i == k then x else q[i - 1]
  {
  }

  lemma InsertLinks(t: Queue, q: seq<Id>, k: nat, x: Id, i: nat)
    requires Holds(t, q) && Distinct(q) && k <= |q| && x !in q && i <= |q|
    ensures LinkedAt(InsertAt(t, q, k, x), Inserted(q, k, x), i)
  {
    InsertWrites(t, q, k, x);
    InsertedAt(q, k, x, i);
    if i < k {
      assert LinkedAt(t, q, i);
      AtIsUnique(q, i, k);
    } else if i > k {
      assert LinkedAt(t, q, i - 1);
      if i > k + 1 { AtIsUnique(q, i - 1, k); }
    }
  }

  /** Inserting an element that is not linked inserts it into the sequence. */
  lemma InsertKeeps(t: Queue, q: seq<Id>, k: nat, x: Id)
    requires Holds(t, q) && Distinct(q) && k <= |q| && x !in q
    ensures Holds(InsertAt(t, q, k, x), Inserted(q, k, x))
  {
    forall i | 0 <= i < |q| + 1 ensures LinkedAt(InsertAt(t, q, k, x), Inserted(q, k, x), i) {
      InsertLinks(t, q, k, x, i);
    }
    InsertWrites(t, q, k, x);
    InsertedAt(q, k, x, |q| + 1);
    if k < |q| { AtIsUnique(q, |q|, k); }
  }

  function Removed(q: seq<Id>, k: nat): (r: seq<Id>)
    requires k < |q|
    ensures |r| == |q| - 1
  {
    q[..k] + q[k + 1..]
  }

  lemma RemovedAt(q: seq<Id>, k: nat, i: nat)
    requires k < |q| && i < |q|
    ensures At(Removed(q, k), i) == if i <= k then At(q, i) else At(q, i + 1)
    ensures i < |q| - 1 ==> Removed(q, k)[i] == if i < k then q[i] else q[i + 1]
  {
  }

  /** What a removal writes. */
  lemma RemoveWrites(t: Queue, q: seq<Id>, k: nat)
    requires Holds(t, q) && k < |q|
    ensures q[k] in t.prev
    ensures var t', more := Remove(t, q[k]), k + 1 < |q|;
      && t'.cell == t.cell[At(q, k) := if more then To(q[k + 1]) else Null]
      && t'.prev == (if more then t.prev[q[k + 1] := At(q, k)] else t.prev)
      && t'.last == if more then t.last else At(q, k)
  {
    assert LinkedAt(t, q, k);
    if k + 1 < |q| { assert LinkedAt(t, q, k + 1); }
  }

  lemma RemoveLinks(t: Queue, q: seq<Id>, k: nat, i: nat)
    requires Holds(t, q) && Distinct(q) && k < |q| && i < |q| - 1 && q[k] in t.prev
    ensures LinkedAt(Remove(t, q[k]), Removed(q, k), i)
  {
    RemoveWrites(t, q, k);
    RemovedAt(q, k, i);
    if i < k {
      assert LinkedAt(t, q, i);
      AtIsUnique(q, i, k);
    } else {
      assert LinkedAt(t, q, i + 1);
      AtIsUnique(q, i + 1, k);
    }
  }

  /** Removing an element removes it from the sequence. */
  lemma RemoveKeeps(t: Queue, q: seq<Id>, k: nat)
    requires Holds(t, q) && Distinct(q) && k < |q|
    ensures q[k] in t.prev && Holds(Remove(t, q[k]), Removed(q, k))
  {
    RemoveWrites(t, q, k);
    forall i | 0 <= i < |q| - 1 ensures LinkedAt(Remove(t, q[k]), Removed(q, k), i) {
      RemoveLinks(t, q, k, i);
    }
    RemovedAt(q, k, |q| - 1);
    AtIsUnique(q, |q|, k);
  }

  /** The place of an element, seen from a sequence that contains the one before it. */
  lemma SamePlace(q: seq<Id>, m: nat, q': seq<Id>) returns (i: nat)
    requires m < |q| && forall x :: x in q ==> x in q'
    ensures i <= |q'| && At(q', i) == At(q, m) && (m == 0 ==> i == 0)
  {
    i := 0;
    if m > 0 {
      assert q[m - 1] in q';
      var j :| 0 <= j < |q'| && q'[j] == q[m - 1];
      i := j + 1;
    }
  }

  /** Inserting an element that is linked already, at any place but its own, leaves no sequence with
      all the elements: a walk loses some or never ends. */
  lemma InsertTwiceBreaks(t: Queue, q: seq<Id>, k: nat, m: nat, q': seq<Id>)
    requires Holds(t, q) && Distinct(q) && k <= |q| && m < |q| && k != m && forall x :: x in q ==> x in q'
    ensures !Holds(InsertAt(t, q, k, q[m]), q')
  {
    var x, t' := q[m], InsertAt(t, q, k, q[m]);
    InsertWrites(t, q, k, x);
    AtIsUnique(q, k, m);
    assert LinkedAt(t, q, m);
    assert Cell(t', At(q, m)) == To(x) && t'.prev[x] == At(q, k);
    var i := SamePlace(q, m, q');
    assert q[m] in q';
    if i < |q'| {
      assert !LinkedAt(t', q', i);
    }
  }
}
