/** thread_queue: requests posted by one thread, processed by any number of workers,
    cancelled and collected, in every interleaving of the locked sections. */
module ThreadQueue {
  import opened Sequences

  type Buffer = seq<bv8>

  datatype Status = Waiting | InProcess | Complete

  datatype Record = Record(index: nat, request: Buffer, response: Buffer, status: Status, cancelled: bool)

  /** A worker is about to wait for the semaphore, or past it but not yet at the lock, or
      processing a request. */
  datatype Phase = Resting | Awake | Working(index: nat)

  datatype Queue = Queue(next: nat, list: seq<Record>, permits: nat, workers: seq<Phase>)

  datatype Option<T> = None | Some(value: T)

  /** What one thread does between two points where another may come in. */
  datatype Step =
    | Post(request: Buffer)
    | Wait(worker: nat)
    | Pick(worker: nat)
    | Finish(worker: nat, response: Buffer)
    | Cancel(index: nat)
    | Collect

  datatype Event =
    | Started(index: nat)
    | Finished(index: nat, response: Buffer)
    | CancelAnswered(index: nat, found: bool)
    | Collected(index: nat, response: Buffer)

  // ------------------------------------------------------------ the list operations

  /** Position of the first record that waits, or |list|. */
  function FirstWaiting(list: seq<Record>): (r: nat)
    ensures r <= |list| && (r < |list| ==> list[r].status == Waiting)
    ensures forall j :: 0 <= j < r ==> list[j].status != Waiting
  {
    if list == [] || list[0].status == Waiting then 0 else 1 + FirstWaiting(list[1..])
  }

  /** Position of the record of a request, or |list|. */
  function Position(list: seq<Record>, index: nat): (r: nat)
    ensures r <= |list| && (r < |list| ==> list[r].index == index)
    ensures forall j :: 0 <= j < r ==> list[j].index != index
  {
    if list == [] || list[0].index == index then 0 else 1 + Position(list[1..], index)
  }

  /** Cancelled results that are complete go; the first other complete one is taken. */
  function Sweep(list: seq<Record>): (seq<Record>, Option<Record>) {
    if list == [] then ([], None)
    else if list[0].status == Complete then
      if list[0].cancelled then Sweep(list[1..]) else (list[1..], Some(list[0]))
    else var (rest, found) := Sweep(list[1..]); ([list[0]] + rest, found)
  }

  // -------------------------------------------------------------------- the steps

  predicate Enabled(q: Queue, s: Step) {
    match s
    case Wait(w) => w < |q.workers| && q.workers[w] == Resting && q.permits > 0
    case Pick(w) => w < |q.workers| && q.workers[w] == Awake
    case Finish(w, _) => w < |q.workers| && q.workers[w].Working?
    case _ => true
  }

  function AfterPost(q: Queue, request: Buffer): Queue {
    q.(next := q.next + 1, list := q.list + [Record(q.next, request, [], Waiting, false)], permits := q.permits + 1)
  }

  function AfterPick(q: Queue, w: nat): Queue
    requires w < |q.workers|
  {
    var i := FirstWaiting(q.list);
    if i == |q.list| then q.(workers := q.workers[w := Resting])
    else q.(list := q.list[i := q.list[i].(status := InProcess)], workers := q.workers[w := Working(q.list[i].index)])
  }

  function AfterFinish(q: Queue, w: nat, response: Buffer): Queue
    requires w < |q.workers| && q.workers[w].Working?
  {
    var i := Position(q.list, q.workers[w].index);
    if i == |q.list| then q
    else q.(list := q.list[i := q.list[i].(status := Complete, response := response)], workers := q.workers[w := Resting])
  }

  function AfterCancel(q: Queue, index: nat): Queue {
    var i := Position(q.list, index);
    if i == |q.list| then q
    else if q.list[i].status == InProcess then q.(list := q.list[i := q.list[i].(cancelled := true)])
    else q.(list := Without(q.list, i))
  }

  function Apply(q: Queue, s: Step): (Queue, seq<Event>)
    requires Enabled(q, s)
  {
    match s
    case Post(request) => (AfterPost(q, request), [])
    case Wait(w) => (q.(permits := q.permits - 1, workers := q.workers[w := Awake]), [])
    case Pick(w) =>
      var i := FirstWaiting(q.list);
      (AfterPick(q, w), if i == |q.list| then [] else [Started(q.list[i].index)])
    case Finish(w, response) => (AfterFinish(q, w, response), [Finished(q.workers[w].index, response)])
    case Cancel(index) => (AfterCancel(q, index), [CancelAnswered(index, Position(q.list, index) < |q.list|)])
    case Collect =>
      var (rest, found) := Sweep(q.list);
      (q.(list := rest), if found.None? then [] else [Collected(found.value.index, found.value.response)])
  }

  function Fresh(threads: nat): Queue {
    Queue(0, [], 0, seq(threads, i => Resting))
  }

  function Run(threads: nat, steps: seq<Step>): Option<(Queue, seq<Event>)> {
    if steps == [] then Some((Fresh(threads), []))
    else match Run(threads, steps[..|steps| - 1])
         case None => None
         case Some((q, log)) =>
           if Enabled(q, steps[|steps| - 1]) then var (p, e) := Apply(q, steps[|steps| - 1]); Some((p, log + e)) else None
  }

  // ------------------------------------------------------------------- invariants

  ghost predicate Increasing(list: seq<Record>) {
    forall i, j :: 0 <= i < j < |list| ==> list[i].index < list[j].index
  }

  /** Requests stand in the list in the order in which they were posted. */
  ghost predicate Ordered(q: Queue) {
    Increasing(q.list) && forall r :: r in q.list ==> r.index < q.next
  }

  ghost predicate Busy(q: Queue, index: nat) {
    exists r :: r in q.list && r.index == index && r.status == InProcess
  }

  /** Each working thread has a record of its own in the list, marked as in process, and
      there are no other such records. */
  ghost predicate Staffed(q: Queue) {
    && (forall w :: 0 <= w < |q.workers| && q.workers[w].Working? ==> Busy(q, q.workers[w].index))
    && (forall w, v :: 0 <= w < v < |q.workers| && q.workers[w].Working? && q.workers[v].Working?
                       ==> q.workers[w].index != q.workers[v].index)
    && (forall r :: r in q.list && r.status == InProcess ==> Working(r.index) in q.workers)
  }

  ghost function CountWaiting(list: seq<Record>): nat {
    if list == [] then 0 else (if list[0].status == Waiting then 1 else 0) + CountWaiting(list[1..])
  }

  ghost function CountAwake(workers: seq<Phase>): nat {
    if workers == [] then 0 else (if workers[0] == Awake then 1 else 0) + CountAwake(workers[1..])
  }

  /** No waiting request is stranded: a permit or a worker on its way is there for each. */
  ghost predicate Served(q: Queue) {
    CountWaiting(q.list) <= q.permits + CountAwake(q.workers)
  }

  /** What an event of the past says about the queue now. */
  ghost predicate Recalled(q: Queue, e: Event) {
    match e
    case Started(n) => n < q.next && forall r :: r in q.list && r.status == Waiting ==> n < r.index
    case Finished(n, _) => n < q.next
    case CancelAnswered(n, found) =>
      found ==> n < q.next && forall r :: r in q.list && r.index == n ==> r.cancelled && r.status != Waiting
    case Collected(n, _) => n < q.next && forall r :: r in q.list ==> r.index != n
  }

  ghost predicate Logged(q: Queue, log: seq<Event>) {
    && (forall e :: e in log ==> Recalled(q, e))
    && (forall r :: r in q.list && r.status == Complete ==> Finished(r.index, r.response) in log)
  }

  /** Whether e may follow the earlier event d. */
  ghost predicate MayFollow(d: Event, e: Event) {
    && (d.Started? && e.Started? ==> d.index < e.index)
    && (d.Collected? && e.Collected? ==> d.index != e.index)
    && (d.CancelAnswered? && d.found && e.Collected? ==> d.index != e.index)
    && (d.CancelAnswered? && d.found && e.Started? ==> d.index != e.index)
    && (d.Collected? && e.CancelAnswered? && e.found ==> d.index != e.index)
  }

  /** The log is one the users of the queue may rely on. */
  ghost predicate Sound(log: seq<Event>) {
    && (forall i, j :: 0 <= i < j < |log| ==> MayFollow(log[i], log[j]))
    && (forall j :: 0 <= j < |log| && log[j].Collected?
                    ==> Finished(log[j].index, log[j].response) in log[..j])
  }

  ghost predicate Inv(q: Queue, log: seq<Event>) {
    Ordered(q) && Staffed(q) && Served(q) && Logged(q, log) && Sound(log)
  }

  // ----------------------------------------------------- facts about the operations

  /** What collecting leaves: nothing new, and everything that is not complete. */
  lemma {:induction false} SweepLeaves(list: seq<Record>)
    ensures var rest := Sweep(list).0;
            && (forall r :: r in rest ==> r in list)
            && (forall r :: r in list && r.status != Complete ==> r in rest)
            && CountWaiting(rest) == CountWaiting(list)
  {
    if list != [] {
      var tail := list[1..];
      SweepLeaves(tail);
      assert list == [list[0]] + tail;
      if list[0].status != Complete {
        assert ([list[0]] + Sweep(tail).0)[1..] == Sweep(tail).0;
      }
    }
  }

  lemma HeadIsLeast(list: seq<Record>)
    requires list != [] && Increasing(list)
    ensures Increasing(list[1..]) && forall r :: r in list[1..] ==> list[0].index < r.index
  {
    var tail := list[1..];
    forall r | r in tail
      ensures list[0].index < r.index
    {
      var i :| 0 <= i < |tail| && tail[i] == r;
    }
  }

  lemma {:induction false} SweepIncreasing(list: seq<Record>)
    requires Increasing(list)
    ensures Increasing(Sweep(list).0)
  {
    if list != [] {
      HeadIsLeast(list);
      SweepIncreasing(list[1..]);
      SweepLeaves(list[1..]);
      hide Increasing;
      ConsIncreasingIf(list[0], list[1..], Sweep(list[1..]).0);
    }
  }

  lemma ConsIncreasingIf(r: Record, list: seq<Record>, rest: seq<Record>)
    requires Increasing(rest) && (forall x :: x in list ==> r.index < x.index) && forall x :: x in rest ==> x in list
    ensures Increasing([r] + rest)
  {
  }

  /** What collecting takes: a complete, uncancelled result, of which nothing stays behind. */
  lemma {:induction false} SweepTakes(list: seq<Record>)
    requires Increasing(list)
    ensures var (rest, found) := Sweep(list);
            && (found.Some? ==> found.value in list && found.value.status == Complete && !found.value.cancelled
                                && forall r :: r in rest ==> r.index != found.value.index)
            && (found.None? ==> forall r :: r in rest ==> r.status != Complete)
  {
    if list != [] {
      var tail := list[1..];
      HeadIsLeast(list);
      SweepTakes(tail);
      SweepLeaves(tail);
      assert list == [list[0]] + tail;
      hide Increasing;
    }
  }

  lemma {:induction false} CountUpdate(list: seq<Record>, i: nat, r: Record)
    requires i < |list|
    ensures CountWaiting(list[i := r]) == CountWaiting(list) - (if list[i].status == Waiting then 1 else 0)
                                          + (if r.status == Waiting then 1 else 0)
  {
    var u := list[i := r];
    if i > 0 {
      assert u[1..] == list[1..][i - 1 := r];
      CountUpdate(list[1..], i - 1, r);
    } else {
      assert u[1..] == list[1..];
    }
  }

  lemma {:induction false} CountAppend(list: seq<Record>, r: Record)
    ensures CountWaiting(list + [r]) == CountWaiting(list) + if r.status == Waiting then 1 else 0
  {
    if list == [] {
      assert [r][1..] == [];
    } else {
      assert (list + [r])[1..] == list[1..] + [r];
      CountAppend(list[1..], r);
    }
  }

  lemma {:induction false} CountWithout(list: seq<Record>, i: nat)
    requires i < |list|
    ensures CountWaiting(Without(list, i)) == CountWaiting(list) - if list[i].status == Waiting then 1 else 0
  {
    if i == 0 {
      assert Without(list, 0) == list[1..];
    } else {
      assert Without(list, i)[1..] == Without(list[1..], i - 1);
      CountWithout(list[1..], i - 1);
    }
  }

  lemma {:induction false} AwakeUpdate(workers: seq<Phase>, w: nat, p: Phase)
    requires w < |workers|
    ensures CountAwake(workers[w := p]) == CountAwake(workers) - (if workers[w] == Awake then 1 else 0)
                                           + (if p == Awake then 1 else 0)
  {
    var u := workers[w := p];
    if w > 0 {
      assert u[1..] == workers[1..][w - 1 := p];
      AwakeUpdate(workers[1..], w - 1, p);
    } else {
      assert u[1..] == workers[1..];
    }
  }

  lemma {:induction false} SomeWaiting(list: seq<Record>)
    ensures FirstWaiting(list) == |list| ==> CountWaiting(list) == 0
  {
    if list != [] {
      SomeWaiting(list[1..]);
    }
  }

  lemma UpdateMembers(list: seq<Record>, i: nat, r: Record)
    requires i < |list| && Increasing(list) && r.index == list[i].index
    ensures Increasing(list[i := r])
    ensures forall x :: x in list[i := r] <==> x == r || (x in list && x.index != r.index)
  {
    var u := list[i := r];
    assert u[i] == r;
    forall x | x in u
      ensures x == r || (x in list && x.index != r.index)
    {
      var k :| 0 <= k < |u| && u[k] == x;
    }
    forall x | x in list && x.index != r.index
      ensures x in u
    {
      var k :| 0 <= k < |list| && list[k] == x;
      assert u[k] == x;
    }
  }

  lemma WithoutAt(list: seq<Record>, i: nat)
    requires i < |list|
    ensures |Without(list, i)| == |list| - 1
    ensures forall k :: 0 <= k < |list| - 1 ==> Without(list, i)[k] == list[if k < i then k else k + 1]
  {
  }

  lemma WithoutIncreasing(list: seq<Record>, i: nat)
    requires i < |list| && Increasing(list)
    ensures Increasing(Without(list, i))
  {
    WithoutAt(list, i);
    hide Without;
  }

  lemma WithoutMembers(list: seq<Record>, i: nat)
    requires i < |list| && Increasing(list)
    ensures Increasing(Without(list, i))
    ensures forall x :: x in Without(list, i) <==> x in list && x.index != list[i].index
  {
    WithoutIncreasing(list, i);
    forall x
      ensures x in Without(list, i) <==> x in list && x.index != list[i].index
    {
      if x in Without(list, i) {
        NotRemoved(list, i, x);
      }
      if x in list && x.index != list[i].index {
        StillThere(list, i, x);
      }
    }
  }

  lemma NotRemoved(list: seq<Record>, i: nat, x: Record)
    requires i < |list| && Increasing(list) && x in Without(list, i)
    ensures x in list && x.index != list[i].index
  {
    WithoutAt(list, i);
    var u := Without(list, i);
    hide Without;
    var k :| 0 <= k < |u| && u[k] == x;
    var m := if k < i then k else k + 1;
    assert list[m] == x;
  }

  lemma StillThere(list: seq<Record>, i: nat, x: Record)
    requires i < |list| && x in list && x.index != list[i].index
    ensures x in Without(list, i)
  {
    WithoutAt(list, i);
    var u := Without(list, i);
    hide Without;
    var k :| 0 <= k < |list| && list[k] == x;
    var m := if k < i then k else k - 1;
    assert u[m] == x;
  }

  /** Records are told apart by their request. */
  lemma OneRecord(list: seq<Record>, x: Record, y: Record)
    requires Increasing(list) && x in list && y in list && x.index == y.index
    ensures x == y
  {
    var i :| 0 <= i < |list| && list[i] == x;
    var j :| 0 <= j < |list| && list[j] == y;
  }

  lemma PositionFinds(list: seq<Record>, index: nat)
    ensures Position(list, index) == |list| <==> forall r :: r in list ==> r.index != index
  {
    forall r | r in list
      ensures Position(list, index) == |list| ==> r.index != index
    {
      var i :| 0 <= i < |list| && list[i] == r;
    }
  }

  /** The first waiting record is the one that was posted first. */
  lemma FirstIsOldest(list: seq<Record>)
    requires Increasing(list) && FirstWaiting(list) < |list|
    ensures var r := list[FirstWaiting(list)];
            forall x :: x in list && x.status == Waiting && x != r ==> r.index < x.index
  {
    var p := FirstWaiting(list);
    forall x | x in list && x.status == Waiting && x != list[p]
      ensures list[p].index < x.index
    {
      var k :| 0 <= k < |list| && list[k] == x;
      assert k >= p;
    }
  }

  // ------------------------------------------------------------- what each step keeps

  lemma StepOrdered(q: Queue, s: Step)
    requires Ordered(q) && Enabled(q, s)
    ensures Ordered(Apply(q, s).0) && Apply(q, s).0.next >= q.next
  {
    hide Increasing;
    match s
    case Post(request) =>
      AppendIncreasing(q.list, Record(q.next, request, [], Waiting, false), q.next);
    case Wait(_) =>
    case Pick(_) =>
      var i := FirstWaiting(q.list);
      if i < |q.list| {
        UpdateMembers(q.list, i, q.list[i].(status := InProcess));
      }
    case Finish(w, response) =>
      var i := Position(q.list, q.workers[w].index);
      if i < |q.list| {
        UpdateMembers(q.list, i, q.list[i].(status := Complete, response := response));
      }
    case Cancel(index) =>
      var i := Position(q.list, index);
      if i < |q.list| {
        UpdateMembers(q.list, i, q.list[i].(cancelled := true));
        WithoutMembers(q.list, i);
      }
    case Collect =>
      SweepIncreasing(q.list);
      SweepLeaves(q.list);
  }

  lemma AppendIncreasing(list: seq<Record>, r: Record, next: nat)
    requires Increasing(list) && (forall x :: x in list ==> x.index < next) && r.index == next
    ensures Increasing(list + [r])
  {
  }

  lemma StepServed(q: Queue, s: Step)
    requires Served(q) && Enabled(q, s)
    ensures Served(Apply(q, s).0)
  {
    match s
    case Post(request) =>
      CountAppend(q.list, Record(q.next, request, [], Waiting, false));
    case Wait(w) =>
      AwakeUpdate(q.workers, w, Awake);
    case Pick(w) =>
      var i := FirstWaiting(q.list);
      SomeWaiting(q.list);
      if i < |q.list| {
        CountUpdate(q.list, i, q.list[i].(status := InProcess));
        AwakeUpdate(q.workers, w, Working(q.list[i].index));
      }
    case Finish(w, response) =>
      var i := Position(q.list, q.workers[w].index);
      if i < |q.list| {
        CountUpdate(q.list, i, q.list[i].(status := Complete, response := response));
        AwakeUpdate(q.workers, w, Resting);
      }
    case Cancel(index) =>
      var i := Position(q.list, index);
      if i < |q.list| {
        CountUpdate(q.list, i, q.list[i].(cancelled := true));
        CountWithout(q.list, i);
      }
    case Collect =>
      SweepLeaves(q.list);
  }

  /** A worker's record stays until it is finished, and stays that worker's. */
  lemma StepStaffed(q: Queue, s: Step)
    requires Ordered(q) && Staffed(q) && Enabled(q, s)
    ensures Staffed(Apply(q, s).0)
  {
    var p := Apply(q, s).0;
    hide Increasing;
    match s
    case Post(request) =>
      KeptStaff(q, p);
    case Wait(w) =>
      IdleStaff(q, p, w);
    case Pick(w) =>
      var i := FirstWaiting(q.list);
      if i == |q.list| {
        IdleStaff(q, p, w);
      } else {
        PickStaff(q, p, w, i);
      }
    case Finish(w, response) =>
      FinishStaff(q, p, w, response);
    case Cancel(index) =>
      CancelStaff(q, p, index);
    case Collect =>
      SweepLeaves(q.list);
      KeptStaff(q, p);
  }

  lemma KeptStaff(q: Queue, p: Queue)
    requires Staffed(q) && p.workers == q.workers
    requires forall r :: r in q.list && r.status == InProcess ==> r in p.list
    requires forall r :: r in p.list && r.status == InProcess ==> r in q.list
    ensures Staffed(p)
  {
    forall w | 0 <= w < |p.workers| && p.workers[w].Working?
      ensures Busy(p, p.workers[w].index)
    {
      assert Busy(q, q.workers[w].index);
      var r :| r in q.list && r.index == q.workers[w].index && r.status == InProcess;
      assert r in p.list;
    }
  }

  lemma IdleStaff(q: Queue, p: Queue, w: nat)
    requires Staffed(q) && w < |q.workers| && !q.workers[w].Working? && p.list == q.list
    requires p.workers == q.workers[w := Awake] || p.workers == q.workers[w := Resting]
    ensures Staffed(p)
  {
    forall r | r in p.list && r.status == InProcess
      ensures Working(r.index) in p.workers
    {
      var v :| 0 <= v < |q.workers| && q.workers[v] == Working(r.index);
      assert p.workers[v] == Working(r.index);
    }
    forall v | 0 <= v < |p.workers| && p.workers[v].Working?
      ensures Busy(p, p.workers[v].index)
    {
      assert Busy(q, q.workers[v].index);
    }
  }

  lemma PickStaff(q: Queue, p: Queue, w: nat, i: nat)
    requires Ordered(q) && Staffed(q) && w < |q.workers| && q.workers[w] == Awake && i < |q.list|
    requires q.list[i].status == Waiting
    requires p == q.(list := q.list[i := q.list[i].(status := InProcess)], workers := q.workers[w := Working(q.list[i].index)])
    ensures Staffed(p)
  {
    var x := q.list[i].(status := InProcess);
    UpdateMembers(q.list, i, x);
    hide Increasing;
    assert x in p.list && p.workers[w] == Working(x.index);
    forall v | 0 <= v < |q.workers| && q.workers[v].Working?
      ensures q.workers[v].index != x.index && Busy(p, q.workers[v].index)
    {
      assert Busy(q, q.workers[v].index);
      var r :| r in q.list && r.index == q.workers[v].index && r.status == InProcess;
      if r.index == x.index {
        OneRecord(q.list, r, q.list[i]);
      }
      assert r in p.list;
    }
    forall r | r in p.list && r.status == InProcess
      ensures Working(r.index) in p.workers
    {
      if r != x {
        var v :| 0 <= v < |q.workers| && q.workers[v] == Working(r.index);
        assert p.workers[v] == Working(r.index);
      }
    }
  }

  lemma FinishStaff(q: Queue, p: Queue, w: nat, response: Buffer)
    requires Ordered(q) && Staffed(q) && w < |q.workers| && q.workers[w].Working? && p == AfterFinish(q, w, response)
    ensures Staffed(p)
    ensures Position(q.list, q.workers[w].index) < |q.list|
  {
    var n := q.workers[w].index;
    assert Busy(q, n);
    PositionFinds(q.list, n);
    var i := Position(q.list, n);
    var x := q.list[i].(status := Complete, response := response);
    UpdateMembers(q.list, i, x);
    hide Increasing;
    forall v | 0 <= v < |p.workers| && p.workers[v].Working?
      ensures Busy(p, p.workers[v].index)
    {
      assert v != w && q.workers[v].index != n;
      assert Busy(q, q.workers[v].index);
      var r :| r in q.list && r.index == q.workers[v].index && r.status == InProcess;
      assert r in p.list;
    }
    forall r | r in p.list && r.status == InProcess
      ensures Working(r.index) in p.workers
    {
      var v :| 0 <= v < |q.workers| && q.workers[v] == Working(r.index);
      assert v != w;
      assert p.workers[v] == Working(r.index);
    }
  }

  lemma CancelStaff(q: Queue, p: Queue, index: nat)
    requires Ordered(q) && Staffed(q) && p == AfterCancel(q, index)
    ensures Staffed(p)
  {
    var i := Position(q.list, index);
    if i < |q.list| {
      var x := q.list[i].(cancelled := true);
      UpdateMembers(q.list, i, x);
      WithoutMembers(q.list, i);
      hide Increasing;
      forall v | 0 <= v < |p.workers| && p.workers[v].Working?
        ensures Busy(p, p.workers[v].index)
      {
        assert Busy(q, q.workers[v].index);
        var r :| r in q.list && r.index == q.workers[v].index && r.status == InProcess;
        if r.index == index {
          OneRecord(q.list, r, q.list[i]);
          assert x in p.list;
        } else {
          assert r in p.list;
        }
      }
    }
  }

  /** Records come from posts, never wait again once started, and stay cancelled. */
  ghost predicate Evolves(q: Queue, p: Queue) {
    && p.next >= q.next
    && (forall r :: r in p.list && r.index < q.next ==> Descends(q, r))
    && (forall r :: r in p.list ==> r.index < p.next)
  }

  ghost predicate Descends(q: Queue, r: Record) {
    exists x :: x in q.list && x.index == r.index && (r.status == Waiting ==> x.status == Waiting)
                && (x.cancelled ==> r.cancelled)
  }

  lemma Same(q: Queue, r: Record)
    requires r in q.list
    ensures Descends(q, r)
  {
  }

  lemma StepEvolves(q: Queue, s: Step)
    requires Ordered(q) && Enabled(q, s)
    ensures Evolves(q, Apply(q, s).0)
  {
    var p := Apply(q, s).0;
    StepOrdered(q, s);
    hide Increasing;
    forall r | r in p.list && r.index < q.next
      ensures Descends(q, r)
    {
      match s
      case Post(_) =>
        Same(q, r);
      case Wait(_) =>
        Same(q, r);
      case Pick(_) =>
        var i := FirstWaiting(q.list);
        if i < |q.list| {
          UpdateMembers(q.list, i, q.list[i].(status := InProcess));
          Updated(q, i, q.list[i].(status := InProcess), r);
        } else {
          Same(q, r);
        }
      case Finish(w, response) =>
        var i := Position(q.list, q.workers[w].index);
        if i < |q.list| {
          UpdateMembers(q.list, i, q.list[i].(status := Complete, response := response));
          Updated(q, i, q.list[i].(status := Complete, response := response), r);
        } else {
          Same(q, r);
        }
      case Cancel(index) =>
        var i := Position(q.list, index);
        if i == |q.list| {
          Same(q, r);
        } else if q.list[i].status == InProcess {
          UpdateMembers(q.list, i, q.list[i].(cancelled := true));
          Updated(q, i, q.list[i].(cancelled := true), r);
        } else {
          WithoutMembers(q.list, i);
          Same(q, r);
        }
      case Collect =>
        SweepLeaves(q.list);
        Same(q, r);
    }
  }

  lemma Updated(q: Queue, i: nat, x: Record, r: Record)
    requires i < |q.list| && x.index == q.list[i].index && (x.status == Waiting ==> q.list[i].status == Waiting)
    requires (q.list[i].cancelled ==> x.cancelled) && (r == x || r in q.list)
    ensures Descends(q, r)
  {
    assert q.list[i] in q.list;
  }

  /** What the past says stays true. */
  lemma RecalledKept(q: Queue, p: Queue, e: Event)
    requires Evolves(q, p) && Recalled(q, e)
    ensures Recalled(p, e)
  {
    match e
    case Started(n) =>
      forall r | r in p.list && r.status == Waiting
        ensures n < r.index
      {
        if r.index < q.next {
          assert Descends(q, r);
        }
      }
    case Finished(_, _) =>
    case CancelAnswered(n, found) =>
      if found {
        forall r | r in p.list && r.index == n
          ensures r.cancelled && r.status != Waiting
        {
          assert Descends(q, r);
        }
      }
    case Collected(n, _) =>
      forall r | r in p.list
        ensures r.index != n
      {
        if r.index < q.next {
          assert Descends(q, r);
        }
      }
  }

  /** What a step adds to the log may be added, and is then recalled. */
  ghost predicate Welcome(q: Queue, p: Queue, log: seq<Event>, e: Event) {
    && Recalled(p, e)
    && (forall d :: d in log ==> MayFollow(d, e))
    && (e.Collected? ==> Finished(e.index, e.response) in log)
  }

  lemma StepWelcome(q: Queue, s: Step, log: seq<Event>)
    requires Ordered(q) && Staffed(q) && Logged(q, log) && Enabled(q, s)
    ensures forall e :: e in Apply(q, s).1 ==> Welcome(q, Apply(q, s).0, log, e)
  {
    hide Increasing;
    hide Welcome;
    var (p, events) := Apply(q, s);
    match s
    case Post(_) =>
      assert events == [];
    case Wait(_) =>
      assert events == [];
    case Pick(w) =>
      StartWelcome(q, w, log);
    case Finish(w, response) =>
      FinishWelcome(q, w, response, log);
    case Cancel(index) =>
      CancelWelcome(q, index, log);
    case Collect =>
      CollectWelcome(q, log);
      var (rest, found) := Sweep(q.list);
      assert p == q.(list := rest);
      if found.Some? {
        assert events == [Collected(found.value.index, found.value.response)];
      }
  }

  lemma StartWelcome(q: Queue, w: nat, log: seq<Event>)
    requires Ordered(q) && Logged(q, log) && w < |q.workers|
    ensures var i := FirstWaiting(q.list);
            i < |q.list| ==> Welcome(q, AfterPick(q, w), log, Started(q.list[i].index))
  {
    var i := FirstWaiting(q.list);
    if i < |q.list| {
      UpdateMembers(q.list, i, q.list[i].(status := InProcess));
      FirstIsOldest(q.list);
      hide Increasing;
      assert q.list[i] in q.list;
      forall d | d in log
        ensures MayFollow(d, Started(q.list[i].index))
      {
        assert Recalled(q, d);
      }
    }
  }

  lemma FinishWelcome(q: Queue, w: nat, response: Buffer, log: seq<Event>)
    requires Ordered(q) && Staffed(q) && w < |q.workers| && q.workers[w].Working?
    ensures Welcome(q, AfterFinish(q, w, response), log, Finished(q.workers[w].index, response))
  {
    assert Busy(q, q.workers[w].index);
  }

  lemma CancelWelcome(q: Queue, index: nat, log: seq<Event>)
    requires Ordered(q) && Logged(q, log)
    ensures Welcome(q, AfterCancel(q, index), log, CancelAnswered(index, Position(q.list, index) < |q.list|))
  {
    var i := Position(q.list, index);
    if i < |q.list| {
      UpdateMembers(q.list, i, q.list[i].(cancelled := true));
      WithoutMembers(q.list, i);
      assert q.list[i] in q.list;
    }
    hide Increasing;
    forall d | d in log
      ensures MayFollow(d, CancelAnswered(index, i < |q.list|))
    {
      assert Recalled(q, d);
    }
  }

  lemma CollectWelcome(q: Queue, log: seq<Event>)
    requires Ordered(q) && Logged(q, log)
    ensures var (rest, found) := Sweep(q.list);
            found.Some? ==> Welcome(q, q.(list := rest), log, Collected(found.value.index, found.value.response))
  {
    var (rest, found) := Sweep(q.list);
    SweepTakes(q.list);
    hide Increasing;
    hide Sweep;
    if found.Some? {
      forall d | d in log
        ensures MayFollow(d, Collected(found.value.index, found.value.response))
      {
        assert Recalled(q, d);
      }
    }
  }

  /** Every complete result in the list was written by the worker that finished it. */
  lemma StepReports(q: Queue, s: Step, log: seq<Event>)
    requires Ordered(q) && Logged(q, log) && Enabled(q, s)
    ensures forall r :: r in Apply(q, s).0.list && r.status == Complete
                        ==> Finished(r.index, r.response) in log + Apply(q, s).1
  {
    hide Increasing;
    match s
    case Post(_) =>
    case Wait(_) =>
    case Pick(_) =>
      var i := FirstWaiting(q.list);
      if i < |q.list| {
        UpdateMembers(q.list, i, q.list[i].(status := InProcess));
      }
    case Finish(w, response) =>
      var i := Position(q.list, q.workers[w].index);
      if i < |q.list| {
        UpdateMembers(q.list, i, q.list[i].(status := Complete, response := response));
      }
    case Cancel(index) =>
      var i := Position(q.list, index);
      if i < |q.list| {
        assert q.list[i] in q.list;
        UpdateMembers(q.list, i, q.list[i].(cancelled := true));
        WithoutMembers(q.list, i);
      }
    case Collect =>
      SweepLeaves(q.list);
  }

  lemma OneEvent(q: Queue, s: Step)
    requires Enabled(q, s)
    ensures |Apply(q, s).1| <= 1
  {
  }

  lemma SoundExtends(log: seq<Event>, e: Event)
    requires Sound(log) && (forall d :: d in log ==> MayFollow(d, e))
    requires e.Collected? ==> Finished(e.index, e.response) in log
    ensures Sound(log + [e])
  {
    var l := log + [e];
    hide MayFollow;
    forall i, j | 0 <= i < j < |l|
      ensures MayFollow(l[i], l[j])
    {
      if j == |log| {
        assert l[i] == log[i] && log[i] in log;
      }
    }
    forall j | 0 <= j < |l| && l[j].Collected?
      ensures Finished(l[j].index, l[j].response) in l[..j]
    {
      assert l[..j] == if j == |log| then log else log[..j];
    }
  }

  /** Every step, by whichever thread, keeps the whole invariant. */
  lemma StepKeeps(q: Queue, s: Step, log: seq<Event>)
    requires Inv(q, log) && Enabled(q, s)
    ensures Inv(Apply(q, s).0, log + Apply(q, s).1)
  {
    hide *;
    InvIs(q, log);
    var p, events := Apply(q, s).0, Apply(q, s).1;
    StepOrdered(q, s);
    StepStaffed(q, s);
    StepServed(q, s);
    StepEvolves(q, s);
    StepWelcome(q, s, log);
    StepReports(q, s, log);
    OneEvent(q, s);
    LogGrows(q, p, log, events);
    InvIs(p, log + events);
  }

  lemma InvIs(q: Queue, log: seq<Event>)
    ensures Inv(q, log) <==> Ordered(q) && Staffed(q) && Served(q) && Logged(q, log) && Sound(log)
  {
  }

  lemma LogGrows(q: Queue, p: Queue, log: seq<Event>, events: seq<Event>)
    requires Evolves(q, p) && Logged(q, log) && Sound(log) && |events| <= 1
    requires forall e :: e in events ==> Welcome(q, p, log, e)
    requires forall r :: r in p.list && r.status == Complete ==> Finished(r.index, r.response) in log + events
    ensures Logged(p, log + events) && Sound(log + events)
  {
    forall e | e in log + events
      ensures Recalled(p, e)
    {
      if e in log {
        RecalledKept(q, p, e);
      } else {
        assert e in events;
      }
    }
    if events == [] {
      assert log + events == log;
    } else {
      assert Welcome(q, p, log, events[0]);
      SoundExtends(log, events[0]);
      assert log + events == log + [events[0]];
    }
  }

  lemma FreshHolds(threads: nat)
    ensures Inv(Fresh(threads), [])
  {
    NoneAwake(seq(threads, i => Resting));
  }

  lemma {:induction false} NoneAwake(workers: seq<Phase>)
    requires forall w :: 0 <= w < |workers| ==> workers[w] == Resting
    ensures CountAwake(workers) == 0
  {
    if workers != [] {
      NoneAwake(workers[1..]);
    }
  }

  /** In every interleaving of any number of workers with posts, cancellations and collections. */
  lemma {:induction false} RunKeeps(threads: nat, steps: seq<Step>)
    requires Run(threads, steps).Some?
    ensures Inv(Run(threads, steps).value.0, Run(threads, steps).value.1)
    decreases |steps|
  {
    if steps == [] {
      FreshHolds(threads);
    } else {
      var before := steps[..|steps| - 1];
      RunKeeps(threads, before);
      hide Inv;
      var (q, log) := Run(threads, before).value;
      StepKeeps(q, steps[|steps| - 1], log);
    }
  }

  // ------------------------------------------------------------- what was asked for

  /** The buffers posted, in order: request n is the n-th of them. */
  function Requests(steps: seq<Step>): seq<Buffer> {
    if steps == [] then []
    else Requests(steps[..|steps| - 1]) + Asked(steps[|steps| - 1])
  }

  function Asked(s: Step): seq<Buffer> {
    if s.Post? then [s.request] else []
  }

  /** How often a worker took a permit. */
  function Waits(steps: seq<Step>): nat {
    if steps == [] then 0 else Waits(steps[..|steps| - 1]) + if steps[|steps| - 1].Wait? then 1 else 0
  }

  ghost predicate Here(q: Queue, n: nat) {
    exists r :: r in q.list && r.index == n
  }

  ghost predicate Done(log: seq<Event>, n: nat) {
    CancelAnswered(n, true) in log || exists b :: Collected(n, b) in log
  }

  /** Every record holds the buffer of its request, and every request is in the list, or was collected,
      or a cancellation of it was granted. */
  ghost predicate Accounted(q: Queue, log: seq<Event>, requests: seq<Buffer>) {
    && q.next == |requests|
    && (forall r :: r in q.list ==> r.index < |requests| && r.request == requests[r.index])
    && (forall r :: r in q.list && r.cancelled ==> CancelAnswered(r.index, true) in log)
    && (forall n :: 0 <= n < q.next ==> Here(q, n) || Done(log, n))
  }

  /** What collecting takes out: what it returns, and cancelled results. */
  lemma {:induction false} SweepDrops(list: seq<Record>)
    ensures var (rest, found) := Sweep(list);
      && (forall r :: r in rest ==> r in list)
      && (found.Some? ==> found.value in list)
      && (forall r :: r in list ==> r in rest || found == Some(r) || (r.status == Complete && r.cancelled))
  {
    if list != [] {
      SweepDrops(list[1..]);
      assert list == [list[0]] + list[1..];
    }
  }

  lemma DoneStays(log: seq<Event>, events: seq<Event>, n: nat)
    requires Done(log, n)
    ensures Done(log + events, n)
  {
    if exists b :: Collected(n, b) in log {
      var b :| Collected(n, b) in log;
      assert Collected(n, b) in log + events;
    }
  }

  /** A step that keeps every record, apart from status, response and cancellation. */
  lemma UpdateAccounted(q: Queue, i: nat, x: Record, log: seq<Event>, events: seq<Event>, requests: seq<Buffer>, p: Queue)
    requires Ordered(q) && Accounted(q, log, requests) && i < |q.list|
    requires x.index == q.list[i].index && x.request == q.list[i].request
    requires x.cancelled ==> q.list[i].cancelled || CancelAnswered(x.index, true) in events
    requires p.list == q.list[i := x] && p.next == q.next
    ensures Accounted(p, log + events, requests)
  {
    UpdateMembers(q.list, i, x);
    hide Increasing;
    assert q.list[i] in q.list && p.list[i] == x && x in p.list;
    forall n | 0 <= n < p.next
      ensures Here(p, n) || Done(log + events, n)
    {
      if Here(q, n) {
        var r :| r in q.list && r.index == n;
        if n != x.index {
          var k: nat :| k < |q.list| && q.list[k] == r;
          assert k != i && p.list[k] == r;
        }
      } else {
        DoneStays(log, events, n);
      }
    }
  }

  /** A step that takes records out, for which the log then answers. */
  lemma RemovalAccounted(q: Queue, log: seq<Event>, events: seq<Event>, requests: seq<Buffer>, p: Queue)
    requires Accounted(q, log, requests) && p.next == q.next && (forall r :: r in p.list ==> r in q.list)
    requires forall r :: r in q.list && r !in p.list ==> Done(log + events, r.index)
    ensures Accounted(p, log + events, requests)
  {
    forall n | 0 <= n < p.next
      ensures Here(p, n) || Done(log + events, n)
    {
      if Here(q, n) {
        var r :| r in q.list && r.index == n;
        assert r !in p.list ==> Done(log + events, r.index);
      } else {
        DoneStays(log, events, n);
      }
    }
  }

  lemma PostAccounted(q: Queue, request: Buffer, log: seq<Event>, requests: seq<Buffer>)
    requires Accounted(q, log, requests)
    ensures Accounted(AfterPost(q, request), log, requests + [request])
  {
    var p := AfterPost(q, request);
    assert p.list[|q.list|] in p.list;
    forall n | 0 <= n < p.next
      ensures Here(p, n) || Done(log, n)
    {
      if n < q.next && Here(q, n) {
        var r :| r in q.list && r.index == n;
        assert r in p.list;
      }
    }
  }

  lemma CancelAccounted(q: Queue, index: nat, log: seq<Event>, requests: seq<Buffer>)
    requires Ordered(q) && Accounted(q, log, requests)
    ensures var s := Cancel(index); Accounted(Apply(q, s).0, log + Apply(q, s).1, requests)
  {
    var i := Position(q.list, index);
    var (p, events) := Apply(q, Cancel(index));
    if i == |q.list| {
      RemovalAccounted(q, log, events, requests, p);
    } else if q.list[i].status == InProcess {
      UpdateAccounted(q, i, q.list[i].(cancelled := true), log, events, requests, p);
    } else {
      WithoutMembers(q.list, i);
      hide Increasing;
      assert CancelAnswered(index, true) in log + events;
      RemovalAccounted(q, log, events, requests, p);
    }
  }

  lemma CollectAccounted(q: Queue, log: seq<Event>, requests: seq<Buffer>)
    requires Accounted(q, log, requests)
    ensures Accounted(Apply(q, Collect).0, log + Apply(q, Collect).1, requests)
  {
    var (p, events) := Apply(q, Collect);
    var (rest, found) := Sweep(q.list);
    SweepDrops(q.list);
    hide Sweep;
    forall r | r in q.list && r !in p.list
      ensures Done(log + events, r.index)
    {
      if found == Some(r) {
        assert Collected(r.index, r.response) in log + events;
      }
    }
    RemovalAccounted(q, log, events, requests, p);
  }

  lemma StepAccounted(q: Queue, s: Step, log: seq<Event>, requests: seq<Buffer>)
    requires Ordered(q) && Accounted(q, log, requests) && Enabled(q, s)
    ensures Accounted(Apply(q, s).0, log + Apply(q, s).1, requests + Asked(s))
  {
    var (p, events) := Apply(q, s);
    assert s.Post? || requests + Asked(s) == requests;
    match s
    case Post(request) =>
      assert log + events == log;
      PostAccounted(q, request, log, requests);
    case Wait(_) =>
      RemovalAccounted(q, log, events, requests, p);
    case Pick(_) =>
      var i := FirstWaiting(q.list);
      if i < |q.list| {
        UpdateAccounted(q, i, q.list[i].(status := InProcess), log, events, requests, p);
      } else {
        RemovalAccounted(q, log, events, requests, p);
      }
    case Finish(w, response) =>
      var i := Position(q.list, q.workers[w].index);
      if i < |q.list| {
        UpdateAccounted(q, i, q.list[i].(status := Complete, response := response), log, events, requests, p);
      } else {
        RemovalAccounted(q, log, events, requests, p);
      }
    case Cancel(index) =>
      CancelAccounted(q, index, log, requests);
    case Collect =>
      CollectAccounted(q, log, requests);
  }

  lemma {:induction false} RunAccounted(threads: nat, steps: seq<Step>)
    requires Run(threads, steps).Some?
    ensures Accounted(Run(threads, steps).value.0, Run(threads, steps).value.1, Requests(steps))
    ensures Run(threads, steps).value.0.permits + Waits(steps) == |Requests(steps)|
    decreases |steps|
  {
    if steps != [] {
      var before, s := steps[..|steps| - 1], steps[|steps| - 1];
      RunAccounted(threads, before);
      RunKeeps(threads, before);
      var (q, log) := Run(threads, before).value;
      StepAccounted(q, s, log, Requests(before));
      hide Accounted;
      hide Ordered;
      hide Inv;
    }
  }

  // -------------------------------------------------------------------- main results

  /** In every run the record of request n holds the buffer of the n-th post. */
  lemma RequestIsKept(threads: nat, steps: seq<Step>, r: Record)
    requires Run(threads, steps).Some? && r in Run(threads, steps).value.0.list
    ensures r.index < |Requests(steps)| && r.request == Requests(steps)[r.index]
  {
    RunAccounted(threads, steps);
    hide Run;
  }

  /** No request is lost: it is in the list, or was collected, or a cancellation of it was granted. */
  lemma NoneIsLost(threads: nat, steps: seq<Step>, n: nat)
    requires Run(threads, steps).Some? && n < |Requests(steps)|
    ensures var (q, log) := Run(threads, steps).value; Here(q, n) || Done(log, n)
  {
    RunAccounted(threads, steps);
    hide Run;
  }

  /** Each post is one permit, and no permit comes from elsewhere. */
  lemma PermitsAreConserved(threads: nat, steps: seq<Step>)
    requires Run(threads, steps).Some?
    ensures Run(threads, steps).value.0.permits + Waits(steps) == |Requests(steps)|
  {
    RunAccounted(threads, steps);
  }

  /** A request whose cancellation was granted is not started afterwards. */
  lemma CancelledIsNotStarted(threads: nat, steps: seq<Step>, i: nat, j: nat)
    requires Run(threads, steps).Some? && i < j < |Run(threads, steps).value.1|
    ensures var log := Run(threads, steps).value.1;
            log[i].CancelAnswered? && log[i].found && log[j].Started? ==> log[i].index != log[j].index
  {
    RunKeeps(threads, steps);
    var (q, log) := Run(threads, steps).value;
    hide Run;
    assert MayFollow(log[i], log[j]);
  }

  /** Each request is collected at most once, with the response its worker wrote, and
      never after a cancellation was granted; and none can be cancelled once collected. */
  lemma CollectedOnce(threads: nat, steps: seq<Step>, i: nat, j: nat)
    requires Run(threads, steps).Some? && i < j < |Run(threads, steps).value.1|
    ensures var log := Run(threads, steps).value.1;
            && (log[j].Collected? ==> !(log[i].Collected? && log[i].index == log[j].index))
            && (log[j].Collected? ==> !(log[i].CancelAnswered? && log[i].found && log[i].index == log[j].index))
            && (log[j].CancelAnswered? && log[j].found ==> !(log[i].Collected? && log[i].index == log[j].index))
            && (log[j].Collected? ==> Finished(log[j].index, log[j].response) in log[..j])
  {
    RunKeeps(threads, steps);
    var (q, log) := Run(threads, steps).value;
    hide Run;
    assert MayFollow(log[i], log[j]);
  }

  /** Requests are started in the order in which they were posted. */
  lemma StartedInOrder(threads: nat, steps: seq<Step>, i: nat, j: nat)
    requires Run(threads, steps).Some? && i < j < |Run(threads, steps).value.1|
    ensures var log := Run(threads, steps).value.1; log[i].Started? && log[j].Started? ==> log[i].index < log[j].index
  {
    RunKeeps(threads, steps);
    var (q, log) := Run(threads, steps).value;
    hide Run;
    assert MayFollow(log[i], log[j]);
  }

  /** The record a worker is processing is never taken from under it. */
  lemma RecordIsKept(threads: nat, steps: seq<Step>, w: nat)
    requires Run(threads, steps).Some?
    requires var q := Run(threads, steps).value.0; w < |q.workers| && q.workers[w].Working?
    ensures var q := Run(threads, steps).value.0; Busy(q, q.workers[w].index)
  {
    RunKeeps(threads, steps);
    hide Run;
  }

  /** No two workers are processing the same record. */
  lemma RecordIsItsOwn(threads: nat, steps: seq<Step>, w: nat, v: nat)
    requires Run(threads, steps).Some?
    requires var q := Run(threads, steps).value.0;
             w < |q.workers| && v < |q.workers| && w != v && q.workers[w].Working? && q.workers[v].Working?
    ensures var q := Run(threads, steps).value.0; q.workers[v].index != q.workers[w].index
  {
    RunKeeps(threads, steps);
    hide Run;
  }

  /** While requests wait there is a permit left or a worker on its way to the list. */
  lemma NoneIsStranded(threads: nat, steps: seq<Step>)
    requires Run(threads, steps).Some?
    ensures var q := Run(threads, steps).value.0; CountWaiting(q.list) <= q.permits + CountAwake(q.workers)
  {
    RunKeeps(threads, steps);
    hide Run;
  }

  // ------------------------------------------------------------------ the queue itself

  /** Every record holds the buffer posted under its index. */
  ghost predicate Holds(list: seq<Record>, posted: seq<Buffer>) {
    forall r :: r in list ==> r.index < |posted| && r.request == posted[r.index]
  }

  lemma HoldsUpdated(list: seq<Record>, posted: seq<Buffer>, i: nat, x: Record)
    requires Holds(list, posted) && i < |list| && x.index == list[i].index && x.request == list[i].request
    ensures Holds(list[i := x], posted)
  {
    assert list[i] in list;
    forall r | r in list[i := x]
      ensures r.index < |posted| && r.request == posted[r.index]
    {
      var k: nat :| k < |list| && list[i := x][k] == r;
      assert k != i ==> list[k] in list;
    }
  }

  lemma HoldsWithout(list: seq<Record>, posted: seq<Buffer>, i: nat)
    requires Holds(list, posted) && i < |list|
    ensures Holds(Without(list, i), posted)
  {
  }

  /** Record i waits, and none before it does. */
  ghost predicate FirstToWait(list: seq<Record>, i: nat) {
    i < |list| && list[i].status == Waiting && forall j :: 0 <= j < i ==> list[j].status != Waiting
  }

  /** Record i is the one of the request. */
  ghost predicate IsRecord(list: seq<Record>, i: nat, index: nat) {
    i < |list| && list[i].index == index && forall j :: 0 <= j < i ==> list[j].index != index
  }

  /** Record i is complete and not cancelled, and none before it is. */
  ghost predicate FirstToCollect(list: seq<Record>, i: nat) {
    && i < |list| && list[i].status == Complete && !list[i].cancelled
    && forall j :: 0 <= j < i && list[j].status == Complete ==> list[j].cancelled
  }

  /** r is the oldest record that waited, and is in process now; nothing else has changed. */
  ghost predicate StartsFirst(before: seq<Record>, after: seq<Record>, r: Record) {
    exists i :: 0 <= i < |before| && FirstToWait(before, i) && r == before[i]
                && after == before[i := before[i].(status := InProcess)]
  }

  /** The record of the request has the response and is complete; nothing else has changed. */
  ghost predicate Completes(before: seq<Record>, after: seq<Record>, index: nat, response: Buffer) {
    exists i :: 0 <= i < |before| && IsRecord(before, i, index)
                && after == before[i := before[i].(status := Complete, response := response)]
  }

  /** The record of the request is marked, if it is in process, and gone, if it is not; nothing else
      has changed. */
  ghost predicate Cancels(before: seq<Record>, after: seq<Record>, index: nat) {
    exists i :: 0 <= i < |before| && IsRecord(before, i, index)
                && (before[i].status == InProcess ==> after == before[i := before[i].(cancelled := true)])
                && (before[i].status != InProcess ==> after == Without(before, i))
  }

  /** r was the first to collect; it is gone, and so are the complete ones before it. */
  ghost predicate CollectsFirst(before: seq<Record>, after: seq<Record>, r: Record) {
    exists i :: 0 <= i < |before| && FirstToCollect(before, i) && r == before[i]
                && after == Unfinished(before[..i]) + before[i + 1..]
  }

  /** The records that are not complete. */
  ghost function Unfinished(list: seq<Record>): seq<Record> {
    if list == [] then []
    else (if list[0].status == Complete then [] else [list[0]]) + Unfinished(list[1..])
  }

  /** What collecting does to the list. */
  lemma {:induction false} SweepMeans(list: seq<Record>)
    ensures var (rest, found) := Sweep(list);
      && (found.None? ==> rest == Unfinished(list) && forall r :: r in list && r.status == Complete ==> r.cancelled)
      && (found.Some? ==> CollectsFirst(list, rest, found.value))
  {
    if list != [] {
      var tail := list[1..];
      SweepMeans(tail);
      assert list == [list[0]] + tail;
      hide CollectsFirst;
      if list[0].status == Complete && !list[0].cancelled {
        CollectsHead(list);
      } else if Sweep(tail).1.Some? {
        CollectsTail(list, Sweep(tail).0, Sweep(tail).1.value);
      }
    }
  }

  lemma CollectsHead(list: seq<Record>)
    requires list != [] && list[0].status == Complete && !list[0].cancelled
    ensures CollectsFirst(list, list[1..], list[0])
  {
    assert FirstToCollect(list, 0) && list[..0] == [];
  }

  lemma CollectsTail(list: seq<Record>, rest: seq<Record>, r: Record)
    requires list != [] && (list[0].status == Complete ==> list[0].cancelled) && CollectsFirst(list[1..], rest, r)
    ensures CollectsFirst(list, (if list[0].status == Complete then [] else [list[0]]) + rest, r)
  {
    hide Unfinished;
    hide FirstToCollect;
    var tail := list[1..];
    var i :| 0 <= i < |tail| && FirstToCollect(tail, i) && r == tail[i]
             && rest == Unfinished(tail[..i]) + tail[i + 1..];
    FirstFurther(list, i);
    UnfinishedHead(list, i);
    var head: seq<Record> := if list[0].status == Complete then [] else [list[0]];
    assert head + (Unfinished(tail[..i]) + tail[i + 1..]) == head + Unfinished(tail[..i]) + list[i + 2..];
  }

  lemma FirstFurther(list: seq<Record>, i: nat)
    requires list != [] && (list[0].status == Complete ==> list[0].cancelled) && FirstToCollect(list[1..], i)
    ensures FirstToCollect(list, i + 1) && list[i + 1] == list[1..][i]
  {
  }

  lemma UnfinishedHead(list: seq<Record>, i: nat)
    requires i + 1 < |list|
    ensures Unfinished(list[..i + 1])
            == (if list[0].status == Complete then [] else [list[0]]) + Unfinished(list[1..][..i])
    ensures list[1..][i + 1..] == list[i + 2..]
  {
    assert list[..i + 1][1..] == list[1..][..i];
  }

  /** The shared fields of thread_queue; each method is one locked section (or, for
      FinishRequest, the worker's unlocked write to its own record). */
  class ThreadQueue {
    var currentIndex: nat
    var processList: seq<Record>
    var semaphore: nat
    ghost var workers: seq<Phase>
    ghost var posted: seq<Buffer>      // the requests so far; request n is posted[n]

    /** Every record holds the buffer that was posted under its index. */
    ghost predicate Valid()
      reads this
    {
      |posted| == currentIndex && Holds(processList, posted)
    }

    ghost function State(): Queue
      reads this
    {
      Queue(currentIndex, processList, semaphore, workers)
    }

    constructor (threadCount: nat)
      ensures Valid() && State() == Fresh(threadCount) && posted == []
    {
      currentIndex, processList, semaphore, posted := 0, [], 0, [];
      workers := seq(threadCount, i => Resting);
    }

    /** post_request: a waiting record with the buffer, at the end, and a permit. */
    method PostRequest(request: Buffer) returns (index: nat)
      requires Valid()
      modifies this
      ensures Valid() && posted == old(posted) + [request] && index == |old(posted)|
      ensures processList == old(processList) + [Record(index, request, [], Waiting, false)]
      ensures semaphore == old(semaphore) + 1 && workers == old(workers)
      ensures State() == Apply(old(State()), Post(request)).0
    {
      index := currentIndex;
      currentIndex := currentIndex + 1;
      processList := processList + [Record(index, request, [], Waiting, false)];
      semaphore := semaphore + 1;
      posted := posted + [request];
    }

    method WaitSemaphore(ghost worker: nat)
      requires Valid() && Enabled(State(), Wait(worker))
      modifies this`semaphore, this`workers
      ensures Valid() && semaphore == old(semaphore) - 1 && workers == old(workers)[worker := Awake]
      ensures State() == Apply(old(State()), Wait(worker)).0
    {
      semaphore := semaphore - 1;
      workers := workers[worker := Awake];
    }

    /** The locked part of dispatch_next_call: the record the worker is to process, the oldest that
        waits, with the buffer that was posted; none exactly when none waits. */
    method PickRequest(ghost worker: nat) returns (record: Option<Record>)
      requires Valid() && Enabled(State(), Pick(worker))
      modifies this`processList, this`workers
      ensures Valid()
      ensures record.None? ==> processList == old(processList) && workers == old(workers)[worker := Resting]
      ensures record.None? <==> forall r :: r in old(processList) ==> r.status != Waiting
      ensures record.Some? ==>
        && record.value.index < |posted| && record.value.request == posted[record.value.index]
        && workers == old(workers)[worker := Working(record.value.index)]
        && StartsFirst(old(processList), processList, record.value)
      ensures State() == Apply(old(State()), Pick(worker)).0
      ensures var i := FirstWaiting(old(processList));
              record == if i < |old(processList)| then Some(old(processList)[i]) else None
    {
      var i := 0;
      while i < |processList| && processList[i].status != Waiting
        invariant i <= |processList| && forall j :: 0 <= j < i ==> processList[j].status != Waiting
      {
        i := i + 1;
      }
      if i == |processList| {
        workers := workers[worker := Resting];
        return None;
      }
      assert FirstToWait(processList, i) && processList[i] in processList;
      record := Some(processList[i]);
      workers := workers[worker := Working(processList[i].index)];
      HoldsUpdated(processList, posted, i, processList[i].(status := InProcess));
      processList := processList[i := processList[i].(status := InProcess)];
    }

    /** A worker stores its response and marks its record complete. */
    method FinishRequest(ghost worker: nat, index: nat, response: Buffer)
      requires Valid() && Enabled(State(), Finish(worker, response)) && workers[worker].index == index
      requires Ordered(State()) && Staffed(State())
      modifies this`processList, this`workers
      ensures Valid() && workers == old(workers)[worker := Resting]
      ensures Completes(old(processList), processList, index, response)
      ensures State() == Apply(old(State()), Finish(worker, response)).0
    {
      FinishStaff(State(), AfterFinish(State(), worker, response), worker, response);
      var i := FindRecord(index);
      assert IsRecord(processList, i, index);
      HoldsUpdated(processList, posted, i, processList[i].(status := Complete, response := response));
      processList := processList[i := processList[i].(status := Complete, response := response)];
      workers := workers[worker := Resting];
    }

    method FindRecord(index: nat) returns (i: nat)
      ensures i == Position(processList, index)
    {
      i := 0;
      while i < |processList| && processList[i].index != index
        invariant i <= |processList| && forall j :: 0 <= j < i ==> processList[j].index != index
      {
        i := i + 1;
      }
    }

    /** cancel_request: the record is marked while a worker has it, and goes otherwise. */
    method CancelRequest(index: nat) returns (found: bool)
      requires Valid()
      modifies this`processList
      ensures Valid() && (found <==> exists r :: r in old(processList) && r.index == index)
      ensures !found ==> processList == old(processList)
      ensures found ==> Cancels(old(processList), processList, index)
      ensures State() == Apply(old(State()), Cancel(index)).0
      ensures Apply(old(State()), Cancel(index)).1 == [CancelAnswered(index, found)]
    {
      var i := FindRecord(index);
      found := i < |processList|;
      if found {
        var rec := processList[i];
        assert rec in processList && IsRecord(processList, i, index);
        HoldsUpdated(processList, posted, i, rec.(cancelled := true));
        HoldsWithout(processList, posted, i);
        if rec.status == Waiting || rec.status == Complete {
          processList := processList[..i] + processList[i + 1..];
        } else {
          processList := processList[i := rec.(cancelled := true)];
        }
      }
    }

    /** get_next_result: the first complete record that is not cancelled; the cancelled complete ones
        before it go with it, everything else stays. */
    method GetNextResult() returns (result: Option<Record>)
      requires Valid()
      modifies this`processList
      ensures Valid()
      ensures result.None? ==> processList == Unfinished(old(processList))
      ensures result.None? ==> forall r :: r in old(processList) && r.status == Complete ==> r.cancelled
      ensures result.Some? ==> CollectsFirst(old(processList), processList, result.value)
      ensures result.Some? ==> result.value.index < |posted| && result.value.request == posted[result.value.index]
      ensures State() == Apply(old(State()), Collect).0
      ensures result == Sweep(old(processList)).1
    {
      hide CollectsFirst;
      hide Unfinished;
      hide Sweep;
      SweepMeans(processList);
      SweepDrops(processList);
      result := None;
      ghost var start := processList;
      var i := 0;
      SweepFrom(processList, 0);
      while i < |processList| && result.None?
        invariant i <= |processList|
        invariant result.None? ==> Swept(start, processList[..i], processList[i..])
        invariant result.Some? ==> Sweep(start).0 == processList && Sweep(start).1 == result
        decreases |processList| - i
      {
        SweepOne(start, processList[..i], processList[i..]);
        SliceFacts(processList, i);
        if processList[i].status == Complete {
          var rec := processList[i];
          processList := processList[..i] + processList[i + 1..];
          if !rec.cancelled {
            result := Some(rec);
          }
        } else {
          i := i + 1;
        }
      }
      if result.None? {
        SweepDone(start, processList, i);
      }
    }
  }

  /** Sweeping the whole list means keeping the front and sweeping what is left. */
  ghost predicate Swept(start: seq<Record>, front: seq<Record>, left: seq<Record>) {
    Sweep(start).0 == front + Sweep(left).0 && Sweep(start).1 == Sweep(left).1
  }

  lemma SweepFrom(list: seq<Record>, i: nat)
    requires i == 0
    ensures Swept(list, list[..0], list[0..])
  {
    assert list[0..] == list && list[..0] + Sweep(list).0 == Sweep(list).0;
  }

  lemma SweepOne(start: seq<Record>, front: seq<Record>, left: seq<Record>)
    requires left != [] && Swept(start, front, left)
    ensures left[0].status != Complete ==> Swept(start, front + [left[0]], left[1..])
    ensures left[0].status == Complete && left[0].cancelled ==> Swept(start, front, left[1..])
    ensures left[0].status == Complete && !left[0].cancelled
            ==> Sweep(start).0 == front + left[1..] && Sweep(start).1 == Some(left[0])
  {
    if left[0].status != Complete {
      assert front + ([left[0]] + Sweep(left[1..]).0) == front + [left[0]] + Sweep(left[1..]).0;
    }
  }

  lemma SliceFacts(list: seq<Record>, i: nat)
    requires i < |list|
    ensures list[i..][1..] == list[i + 1..] && list[..i] + [list[i]] == list[..i + 1]
    ensures var u := list[..i] + list[i + 1..]; u[..i] == list[..i] && u[i..] == list[i + 1..]
  {
  }

  lemma SweepDone(start: seq<Record>, list: seq<Record>, i: nat)
    requires i == |list| && Swept(start, list[..i], list[i..])
    ensures Sweep(start).0 == list && Sweep(start).1 == None
  {
    assert list[i..] == [] && list[..i] + [] == list;
  }
}
