/** The queue a caller sees: a finite map from id to priority, insertion number and payload. */
module QueueModel {
  datatype Entry<T> = Entry(priority: int, order: nat, payload: T)

  datatype Queue<T> = Queue(entries: map<string, Entry<T>>, next: nat)

  datatype DuplicatePolicy = Reject | Replace

  datatype Op<T> =
    | Enqueue(id: string, priority: int, payload: T)
    | Dequeue
    | UpdatePriority(id: string, priority: int)
    | Remove(id: string)

  datatype Reply<T> =
    | Done
    | DuplicateId(id: string)
    | UnknownId(id: string)
    | Nothing
    | Took(id: string, priority: int, payload: T)

  predicate Before<T>(a: Entry<T>, b: Entry<T>) {
    a.priority < b.priority || (a.priority == b.priority && a.order < b.order)
  }

  /** Insertion numbers identify entries and are all already spent. */
  ghost predicate WellFormed<T>(q: Queue<T>) {
    && (forall id | id in q.entries :: q.entries[id].order < q.next)
    && (forall a, b | a in q.entries && b in q.entries && a != b :: q.entries[a].order != q.entries[b].order)
  }

  ghost predicate IsLeast<T>(entries: map<string, Entry<T>>, id: string) {
    && id in entries
    && forall other | other in entries && other != id :: Before(entries[id], entries[other])
  }

  lemma LeastOfRest<T>(q: Queue<T>, id: string, m: string)
    requires WellFormed(q) && id in q.entries && IsLeast(q.entries - {id}, m)
    ensures IsLeast(q.entries, if Before(q.entries[m], q.entries[id]) then m else id)
  {
    var least := if Before(q.entries[m], q.entries[id]) then m else id;
    forall other | other in q.entries && other != least
      ensures Before(q.entries[least], q.entries[other])
    {
      if other != id && other != m {
        assert other in q.entries - {id};
      }
    }
  }

  lemma {:induction false} LeastExists<T>(q: Queue<T>)
    requires WellFormed(q) && q.entries != map[]
    ensures exists id :: IsLeast(q.entries, id)
    decreases |q.entries|
  {
    var id :| id in q.entries;
    var rest := q.entries - {id};
    assert q.entries.Keys == rest.Keys + {id};
    if rest == map[] {
      assert IsLeast(q.entries, id);
    } else {
      LeastExists(Queue(rest, q.next));
      var m :| IsLeast(rest, m);
      LeastOfRest(q, id, m);
    }
  }

  ghost function LeastId<T>(q: Queue<T>): (id: string)
    requires WellFormed(q) && q.entries != map[]
    ensures IsLeast(q.entries, id)
  {
    LeastExists(q);
    var id :| IsLeast(q.entries, id);
    id
  }

  function ReplyFor<T>(entries: map<string, Entry<T>>, id: string): Reply<T>
    requires id in entries
  {
    Took(id, entries[id].priority, entries[id].payload)
  }

  /** What each public operation does to the map, and what it answers. */
  ghost function Step<T>(policy: DuplicatePolicy, q: Queue<T>, op: Op<T>): (Queue<T>, Reply<T>)
    requires WellFormed(q)
  {
    match op
    case Enqueue(id, priority, payload) =>
      if id in q.entries && policy.Reject? then (q, DuplicateId(id))
      else (Queue(q.entries[id := Entry(priority, q.next, payload)], q.next + 1), Done)
    case Dequeue =>
      if q.entries == map[] then (q, Nothing)
      else (q.(entries := q.entries - {LeastId(q)}), ReplyFor(q.entries, LeastId(q)))
    case UpdatePriority(id, priority) =>
      if id !in q.entries then (q, UnknownId(id))
      else (q.(entries := q.entries[id := q.entries[id].(priority := priority)]), Done)
    case Remove(id) =>
      if id !in q.entries then (q, Nothing)
      else (q.(entries := q.entries - {id}), ReplyFor(q.entries, id))
  }

  lemma StepWellFormed<T>(policy: DuplicatePolicy, q: Queue<T>, op: Op<T>)
    requires WellFormed(q)
    ensures WellFormed(Step(policy, q, op).0)
    ensures Step(policy, q, op).0.next >= q.next
  {
  }

  // --- what each answer and each new state is ---

  /** A known id is refused under the reject policy and nothing changes; otherwise it holds exactly what was given, last
      of its priority, and nobody else is touched. */
  lemma EnqueueAnswers<T>(policy: DuplicatePolicy, q: Queue<T>, id: string, priority: int, payload: T)
    requires WellFormed(q)
    ensures var (q', reply) := Step(policy, q, Op.Enqueue(id, priority, payload));
            if id in q.entries && policy == Reject then q' == q && reply == DuplicateId(id)
            else
              && reply == Done && q'.entries.Keys == q.entries.Keys + {id}
              && q'.entries[id].priority == priority && q'.entries[id].payload == payload
              && forall other | other in q.entries && other != id ::
                   q'.entries[other] == q.entries[other] && q.entries[other].order < q'.entries[id].order
  {
  }

  /** The answer is the id, priority and payload of the entry that no other precedes, and that id alone is gone. */
  lemma DequeueAnswers<T>(policy: DuplicatePolicy, q: Queue<T>)
    requires WellFormed(q)
    ensures var (q', reply) := Step(policy, q, Op.Dequeue);
            if |q.entries| == 0 then q' == q && reply == Nothing
            else
              && reply.Took? && reply.id in q.entries
              && reply.priority == q.entries[reply.id].priority && reply.payload == q.entries[reply.id].payload
              && q'.entries.Keys == q.entries.Keys - {reply.id}
              && forall other | other in q.entries && other != reply.id ::
                   && q'.entries[other] == q.entries[other]
                   && (reply.priority < q.entries[other].priority ||
                       (reply.priority == q.entries[other].priority &&
                        q.entries[reply.id].order < q.entries[other].order))
  {
  }

  lemma UpdatePriorityAnswers<T>(policy: DuplicatePolicy, q: Queue<T>, id: string, priority: int)
    requires WellFormed(q)
    ensures var (q', reply) := Step(policy, q, Op.UpdatePriority(id, priority));
            if id !in q.entries then q' == q && reply == UnknownId(id)
            else
              && reply == Done && q'.entries.Keys == q.entries.Keys && q'.entries[id].priority == priority
              && q'.entries[id].payload == q.entries[id].payload && q'.entries[id].order == q.entries[id].order
              && forall other | other in q.entries && other != id :: q'.entries[other] == q.entries[other]
  {
  }

  lemma RemoveAnswers<T>(policy: DuplicatePolicy, q: Queue<T>, id: string)
    requires WellFormed(q)
    ensures var (q', reply) := Step(policy, q, Op.Remove(id));
            if id !in q.entries then q' == q && reply == Nothing
            else
              && reply == Took(id, q.entries[id].priority, q.entries[id].payload)
              && q'.entries.Keys == q.entries.Keys - {id}
              && forall other | other in q.entries && other != id :: q'.entries[other] == q.entries[other]
  {
  }

  /** The queue after a run of operations. */
  ghost function Run<T>(policy: DuplicatePolicy, q: Queue<T>, ops: seq<Op<T>>): (r: Queue<T>)
    requires WellFormed(q)
    ensures WellFormed(r)
    decreases ops
  {
    if ops == [] then q
    else
      StepWellFormed(policy, q, ops[0]);
      Run(policy, Step(policy, q, ops[0]).0, ops[1..])
  }

  /** Dequeue until empty; the ids in the order they come out. */
  ghost function Drain<T>(q: Queue<T>): (ids: seq<string>)
    requires WellFormed(q)
    decreases |q.entries|
  {
    if q.entries == map[] then []
    else
      var id := LeastId(q);
      assert q.entries.Keys == (q.entries - {id}).Keys + {id};
      [id] + Drain(q.(entries := q.entries - {id}))
  }

  /** The answers to a run of operations. */
  ghost function Replies<T>(policy: DuplicatePolicy, q: Queue<T>, ops: seq<Op<T>>): (r: seq<Reply<T>>)
    requires WellFormed(q)
    ensures |r| == |ops|
    decreases ops
  {
    if ops == [] then []
    else
      StepWellFormed(policy, q, ops[0]);
      [Step(policy, q, ops[0]).1] + Replies(policy, Step(policy, q, ops[0]).0, ops[1..])
  }

  ghost function Dequeues<T>(n: nat): (r: seq<Op<T>>)
    ensures |r| == n
  {
    seq(n, _ => Op.Dequeue)
  }

  /** The answer takes this entry, with its priority and payload. */
  ghost predicate Takes<T>(reply: Reply<T>, entries: map<string, Entry<T>>, id: string) {
    id in entries && reply == Took(id, entries[id].priority, entries[id].payload)
  }

  ghost predicate TakesInTurn<T>(replies: seq<Reply<T>>, entries: map<string, Entry<T>>, ids: seq<string>) {
    |replies| == |ids| && forall i | 0 <= i < |ids| :: Takes(replies[i], entries, ids[i])
  }

  lemma TakesCons<T>(first: Reply<T>, replies: seq<Reply<T>>, entries: map<string, Entry<T>>, id: string,
                     ids: seq<string>)
    requires Takes(first, entries, id) && TakesInTurn(replies, entries - {id}, ids)
    ensures TakesInTurn([first] + replies, entries, [id] + ids)
  {
    forall i | 0 <= i < |ids| ensures Takes(replies[i], entries, ids[i]) {
      assert Takes(replies[i], entries - {id}, ids[i]);
    }
    forall i | 0 <= i <= |ids| ensures Takes(([first] + replies)[i], entries, ([id] + ids)[i]) {
      if i > 0 { assert Takes(replies[i - 1], entries, ids[i - 1]); }
    }
  }

  lemma {:induction false} DequeuingTakes<T>(policy: DuplicatePolicy, q: Queue<T>)
    requires WellFormed(q)
    ensures var ops := Dequeues<T>(|q.entries|);
            Run(policy, q, ops).entries == map[] && TakesInTurn(Replies(policy, q, ops), q.entries, Drain(q))
    decreases |q.entries|
  {
    if q.entries != map[] {
      hide Step, WellFormed, Takes, TakesInTurn, Drain, Run, Replies;
      var (q', reply) := Step(policy, q, Op.Dequeue);
      DrainFirst(policy, q);
      DequeuesFirst(policy, q);
      DequeuingTakes(policy, q');
      TakesCons(reply, Replies(policy, q', Dequeues<T>(|q'.entries|)), q.entries, reply.id, Drain(q'));
    }
  }

  lemma DequeuesFirst<T>(policy: DuplicatePolicy, q: Queue<T>)
    requires WellFormed(q) && q.entries != map[]
    ensures var (q', reply) := Step(policy, q, Op.Dequeue);
            && WellFormed(q') && |q'.entries| == |q.entries| - 1
            && Run(policy, q, Dequeues<T>(|q.entries|)) == Run(policy, q', Dequeues<T>(|q'.entries|))
            && Replies(policy, q, Dequeues<T>(|q.entries|)) ==
                 [reply] + Replies(policy, q', Dequeues<T>(|q'.entries|))
  {
    DequeueShrinks(policy, q);
    hide Step, WellFormed, Run, Replies;
    var q' := Step(policy, q, Op.Dequeue).0;
    assert Dequeues<T>(|q.entries|) == [Op.Dequeue] + Dequeues<T>(|q'.entries|);
    RunsFirst(policy, q, Op.Dequeue, Dequeues<T>(|q'.entries|));
  }

  lemma DequeueShrinks<T>(policy: DuplicatePolicy, q: Queue<T>)
    requires WellFormed(q) && q.entries != map[]
    ensures var q' := Step(policy, q, Op.Dequeue).0; WellFormed(q') && |q'.entries| == |q.entries| - 1
  {
    var (q', reply) := Step(policy, q, Op.Dequeue);
    StepWellFormed(policy, q, Op.Dequeue);
    DequeueAnswers(policy, q);
    hide Step, WellFormed;
    assert q.entries.Keys == q'.entries.Keys + {reply.id};
    assert |q.entries.Keys| == |q.entries| && |q'.entries.Keys| == |q'.entries|;
  }

  lemma RunsFirst<T>(policy: DuplicatePolicy, q: Queue<T>, first: Op<T>, rest: seq<Op<T>>)
    requires WellFormed(q)
    ensures var (q', reply) := Step(policy, q, first);
            && WellFormed(q') && Run(policy, q, [first] + rest) == Run(policy, q', rest)
            && Replies(policy, q, [first] + rest) == [reply] + Replies(policy, q', rest)
  {
    StepWellFormed(policy, q, first);
    hide Step, WellFormed;
    assert ([first] + rest)[0] == first && ([first] + rest)[1..] == rest;
  }

  /** As many dequeues as there are entries hand over every entry once, in the order of draining, and empty the queue.
   */
  lemma DequeuingDrains<T>(policy: DuplicatePolicy, q: Queue<T>)
    requires WellFormed(q)
    ensures var ops, ids := Dequeues<T>(|q.entries|), Drain(q);
            && Run(policy, q, ops).entries == map[]
            && Step(policy, Run(policy, q, ops), Op.Dequeue).1 == Nothing
            && |ids| == |q.entries|
            && forall i | 0 <= i < |ids| ::
                 && ids[i] in q.entries
                 && Replies(policy, q, ops)[i] == Took(ids[i], q.entries[ids[i]].priority, q.entries[ids[i]].payload)
  {
    DequeuingTakes(policy, q);
    hide Run, Drain, Replies;
    var replies := Replies(policy, q, Dequeues<T>(|q.entries|));
    assert forall i | 0 <= i < |Drain(q)| :: Takes(replies[i], q.entries, Drain(q)[i]);
  }

  lemma DrainFirst<T>(policy: DuplicatePolicy, q: Queue<T>)
    requires WellFormed(q) && q.entries != map[]
    ensures var (q', reply) := Step(policy, q, Op.Dequeue);
            && WellFormed(q') && reply.Took? && Takes(reply, q.entries, reply.id)
            && q'.entries == q.entries - {reply.id} && Drain(q) == [reply.id] + Drain(q')
  {
  }

  ghost predicate SortedBy<T>(entries: map<string, Entry<T>>, ids: seq<string>) {
    && (forall id | id in ids :: id in entries)
    && (forall i, j | 0 <= i < j < |ids| :: Before(entries[ids[i]], entries[ids[j]]))
  }

  /** Draining lists every queued id exactly once, in strictly increasing (priority, insertion) order. */
  lemma {:induction false} DrainSorted<T>(q: Queue<T>)
    requires WellFormed(q)
    ensures |Drain(q)| == |q.entries|
    ensures forall id | id in q.entries :: id in Drain(q)
    ensures SortedBy(q.entries, Drain(q))
    decreases |q.entries|
  {
    if q.entries != map[] {
      var id := LeastId(q);
      var rest := q.(entries := q.entries - {id});
      assert q.entries.Keys == rest.entries.Keys + {id};
      DrainSorted(rest);
      SortedCons(q.entries, id, Drain(rest));
    }
  }

  lemma SortedCons<T>(entries: map<string, Entry<T>>, id: string, ids: seq<string>)
    requires IsLeast(entries, id) && SortedBy(entries - {id}, ids)
    ensures SortedBy(entries, [id] + ids)
  {
    var all := [id] + ids;
    forall i, j | 0 <= i < j < |all|
      ensures all[i] in entries && all[j] in entries && Before(entries[all[i]], entries[all[j]])
    {
      assert all[j] == ids[j - 1] && all[j] in entries - {id};
      if i > 0 {
        assert all[i] == ids[i - 1] && all[i] in entries - {id};
      }
    }
  }

  /** The operation is an enqueue of this id that is accepted, be it new or a replacement. */
  ghost predicate Inserts<T>(policy: DuplicatePolicy, q: Queue<T>, op: Op<T>, id: string)
    requires WellFormed(q)
  {
    op.Enqueue? && op.id == id && Step(policy, q, op).1.Done?
  }

  ghost predicate NeverInserted<T>(policy: DuplicatePolicy, q: Queue<T>, ops: seq<Op<T>>, id: string)
    requires WellFormed(q)
    decreases ops
  {
    StepWellFormed(policy, q, if ops == [] then Dequeue else ops[0]);
    ops != [] ==> !Inserts(policy, q, ops[0], id) && NeverInserted(policy, Step(policy, q, ops[0]).0, ops[1..], id)
  }

  /** Only an accepted enqueue gives an id a new insertion number. */
  lemma {:induction false} KeepsOrder<T>(policy: DuplicatePolicy, q: Queue<T>, ops: seq<Op<T>>, id: string)
    requires WellFormed(q) && NeverInserted(policy, q, ops, id)
    ensures Run(policy, q, ops).next >= q.next
    ensures id in Run(policy, q, ops).entries ==>
              id in q.entries && Run(policy, q, ops).entries[id].order == q.entries[id].order
    decreases ops
  {
    if ops != [] {
      StepWellFormed(policy, q, ops[0]);
      KeepsOrder(policy, Step(policy, q, ops[0]).0, ops[1..], id);
    }
  }

  /** One accepted enqueue comes after another, and neither id is inserted again. */
  ghost predicate EnqueuedInTurn<T>(policy: DuplicatePolicy, q: Queue<T>, first: Op<T>, between: seq<Op<T>>,
                                    second: Op<T>, after: seq<Op<T>>)
    requires WellFormed(q)
  {
    StepWellFormed(policy, q, first);
    var q1 := Step(policy, q, first).0;
    var q2 := Run(policy, q1, between);
    StepWellFormed(policy, q2, second);
    var q3 := Step(policy, q2, second).0;
    && first.Enqueue? && second.Enqueue? && first.id != second.id
    && Inserts(policy, q, first, first.id) && Inserts(policy, q2, second, second.id)
    && NeverInserted(policy, q1, between, first.id)
    && NeverInserted(policy, q3, after, first.id) && NeverInserted(policy, q3, after, second.id)
  }

  lemma OrdersInTurn<T>(policy: DuplicatePolicy, q: Queue<T>, first: Op<T>, between: seq<Op<T>>, second: Op<T>,
                        after: seq<Op<T>>)
    requires WellFormed(q) && EnqueuedInTurn(policy, q, first, between, second, after)
    ensures var q' := Run(policy, q, [first] + between + [second] + after);
            first.id in q'.entries && second.id in q'.entries ==>
              q'.entries[first.id].order < q'.entries[second.id].order
  {
    var front, back := [first] + between, [second] + after;
    assert [first] + between + [second] + after == front + back;
    assert front[0] == first && front[1..] == between && back[0] == second && back[1..] == after;
    RunAppend(policy, q, front, back);
    var q1 := Step(policy, q, first).0;
    StepWellFormed(policy, q, first);
    var q2 := Run(policy, q1, between);
    StepWellFormed(policy, q2, second);
    var q3 := Step(policy, q2, second).0;
    KeepsOrder(policy, q1, between, first.id);
    KeepsOrder(policy, q3, after, first.id);
    KeepsOrder(policy, q3, after, second.id);
  }

  /**
   * Stability over whole runs: of two ids that are still there, the one enqueued or replaced first leaves the drained
   * queue first exactly when its priority, however often it was changed, is not greater.
   */
  lemma DrainIsFifo<T>(policy: DuplicatePolicy, q: Queue<T>, first: Op<T>, between: seq<Op<T>>, second: Op<T>,
                       after: seq<Op<T>>)
    requires WellFormed(q) && EnqueuedInTurn(policy, q, first, between, second, after)
    requires var q' := Run(policy, q, [first] + between + [second] + after);
             first.id in q'.entries && second.id in q'.entries
    ensures var q' := Run(policy, q, [first] + between + [second] + after);
            exists i, j :: 0 <= i < |Drain(q')| && 0 <= j < |Drain(q')| && Drain(q')[i] == first.id &&
              Drain(q')[j] == second.id &&
              (i < j <==> q'.entries[first.id].priority <= q'.entries[second.id].priority)
  {
    OrdersInTurn(policy, q, first, between, second, after);
    hide EnqueuedInTurn, Run, Drain, Step;
    var q' := Run(policy, q, [first] + between + [second] + after);
    DrainSorted(q');
    var i :| 0 <= i < |Drain(q')| && Drain(q')[i] == first.id;
    var j :| 0 <= j < |Drain(q')| && Drain(q')[j] == second.id;
    assert i < j ==> Before(q'.entries[first.id], q'.entries[second.id]);
    assert j < i ==> Before(q'.entries[second.id], q'.entries[first.id]);
  }

  lemma {:induction false} RunAppend<T>(policy: DuplicatePolicy, q: Queue<T>, a: seq<Op<T>>, b: seq<Op<T>>)
    requires WellFormed(q)
    ensures Run(policy, q, a + b) == Run(policy, Run(policy, q, a), b)
    decreases a
  {
    if a == [] {
      assert a + b == b;
    } else {
      StepWellFormed(policy, q, a[0]);
      assert (a + b)[0] == a[0] && (a + b)[1..] == a[1..] + b;
      RunAppend(policy, Step(policy, q, a[0]).0, a[1..], b);
    }
  }
}

/** The array heap: index arithmetic, heap order and the inverse id index. */
module HeapShape {
  import opened QueueModel

  datatype Node<T> = Node(id: string, priority: int, seqNo: nat, payload: T)

  function EntryOf<T>(n: Node<T>): Entry<T> {
    Entry(n.priority, n.seqNo, n.payload)
  }

  /** True if `a` should sit closer to the root than `b`. */
  predicate IsHigherPriority<T>(a: Node<T>, b: Node<T>) {
    if a.priority != b.priority then a.priority < b.priority else a.seqNo < b.seqNo
  }

  function ParentOf(index: nat): nat
    requires index > 0
  {
    (index - 1) / 2
  }

  /** Number of steps from `index` to the root. */
  function Depth(index: nat): nat {
    if index == 0 then 0 else 1 + Depth(ParentOf(index))
  }

  function Pow2(k: nat): (r: nat)
    ensures r >= 1
  {
    if k == 0 then 1 else 2 * Pow2(k - 1)
  }

  function FloorLog2(n: nat): nat
    requires n > 0
  {
    if n == 1 then 0 else 1 + FloorLog2(n / 2)
  }

  lemma {:induction false} FloorLog2Bounds(n: nat)
    requires n > 0
    ensures Pow2(FloorLog2(n)) <= n < 2 * Pow2(FloorLog2(n))
  {
    if n > 1 { FloorLog2Bounds(n / 2); }
  }

  lemma {:induction false} DepthIsLog(index: nat)
    ensures Depth(index) == FloorLog2(index + 1)
  {
    if index > 0 {
      assert (index + 1) / 2 == ParentOf(index) + 1;
      DepthIsLog(ParentOf(index));
    }
  }

  lemma {:induction false} FloorLog2Monotone(m: nat, n: nat)
    requires 0 < m <= n
    ensures FloorLog2(m) <= FloorLog2(n)
  {
    if m > 1 { FloorLog2Monotone(m / 2, n / 2); }
  }

  /** `indexById` is the exact inverse of the array's ids. */
  ghost predicate Indexed<T>(heap: seq<Node<T>>, indexById: map<string, nat>) {
    && (forall i | 0 <= i < |heap| :: heap[i].id in indexById && indexById[heap[i].id] == i)
    && (forall id | id in indexById :: indexById[id] < |heap| && heap[indexById[id]].id == id)
  }

  ghost function Entries<T>(heap: seq<Node<T>>, indexById: map<string, nat>): map<string, Entry<T>>
    requires Indexed(heap, indexById)
  {
    map id | id in indexById :: EntryOf(heap[indexById[id]])
  }

  ghost predicate EdgeOk<T>(heap: seq<Node<T>>, child: nat)
    requires 0 < child < |heap|
  {
    !IsHigherPriority(heap[child], heap[ParentOf(child)])
  }

  ghost predicate HeapOrdered<T>(heap: seq<Node<T>>) {
    forall i | 0 < i < |heap| :: EdgeOk(heap, i)
  }

  /** Children of `k` may still hang under the parent of `k`. */
  ghost predicate BypassOk<T>(heap: seq<Node<T>>, k: nat)
    requires k < |heap|
  {
    k > 0 ==> forall c | 0 < c < |heap| && ParentOf(c) == k :: !IsHigherPriority(heap[c], heap[ParentOf(k)])
  }

  /** Ordered except that `k` may be smaller than its parent. */
  ghost predicate OrderedAbove<T>(heap: seq<Node<T>>, k: nat)
    requires k < |heap|
  {
    && (forall i | 0 < i < |heap| && i != k :: EdgeOk(heap, i))
    && BypassOk(heap, k)
  }

  /** Ordered except that `k` may be larger than its children. */
  ghost predicate OrderedBelow<T>(heap: seq<Node<T>>, k: nat)
    requires k < |heap|
  {
    && (forall i | 0 < i < |heap| && ParentOf(i) != k :: EdgeOk(heap, i))
    && BypassOk(heap, k)
  }

  function Swap<T>(heap: seq<Node<T>>, i: nat, j: nat): (r: seq<Node<T>>)
    requires i < |heap| && j < |heap|
    ensures |r| == |heap|
  {
    heap[i := heap[j]][j := heap[i]]
  }

  lemma SwapKeepsEntries<T>(heap: seq<Node<T>>, indexById: map<string, nat>, i: nat, j: nat)
    requires i < |heap| && j < |heap| && i != j && Indexed(heap, indexById)
    ensures var index' := indexById[heap[j].id := i][heap[i].id := j];
            Indexed(Swap(heap, i, j), index') && Entries(Swap(heap, i, j), index') == Entries(heap, indexById)
  {
    assert heap[i].id != heap[j].id by {
      assert indexById[heap[i].id] == i && indexById[heap[j].id] == j;
    }
  }

  /** Moving a too-small node one level up moves the only possible violation with it. */
  lemma SwapUp<T>(heap: seq<Node<T>>, k: nat)
    requires 0 < k < |heap| && OrderedAbove(heap, k) && IsHigherPriority(heap[k], heap[ParentOf(k)])
    ensures OrderedAbove(Swap(heap, k, ParentOf(k)), ParentOf(k))
  {
    var p := ParentOf(k);
    var h := Swap(heap, k, p);
    forall i | 0 < i < |h| && i != p
      ensures EdgeOk(h, i)
    {
      if i != k {
        assert EdgeOk(heap, i);
      }
    }
    if p > 0 {
      assert EdgeOk(heap, p);
      forall c | 0 < c < |h| && ParentOf(c) == p
        ensures !IsHigherPriority(h[c], h[ParentOf(p)])
      {
        if c != k {
          assert EdgeOk(heap, c);
        }
      }
    }
  }

  /** Moving a too-large node down past its best child moves the only possible violation with it. */
  lemma SwapDown<T>(heap: seq<Node<T>>, k: nat, best: nat)
    requires k < |heap| && OrderedBelow(heap, k) && 0 < best < |heap| && ParentOf(best) == k
    requires IsHigherPriority(heap[best], heap[k])
    requires forall c | 0 < c < |heap| && ParentOf(c) == k :: !IsHigherPriority(heap[c], heap[best])
    ensures OrderedBelow(Swap(heap, k, best), best)
  {
    var h := Swap(heap, k, best);
    forall i | 0 < i < |h| && ParentOf(i) != best
      ensures EdgeOk(h, i)
    {
      if i == k {
        assert !IsHigherPriority(heap[best], heap[ParentOf(k)]);
      } else if ParentOf(i) != k {
        assert EdgeOk(heap, i);
      }
    }
    forall c | 0 < c < |h| && ParentOf(c) == best
      ensures !IsHigherPriority(h[c], h[ParentOf(best)])
    {
      assert EdgeOk(heap, c);
    }
  }

  lemma {:induction false} RootIsBest<T>(heap: seq<Node<T>>, i: nat)
    requires i < |heap| && HeapOrdered(heap)
    ensures !IsHigherPriority(heap[i], heap[0])
  {
    if i > 0 {
      assert EdgeOk(heap, i);
      RootIsBest(heap, ParentOf(i));
    }
  }

  lemma {:induction false} SizeAgrees<T>(heap: seq<Node<T>>, indexById: map<string, nat>)
    requires Indexed(heap, indexById)
    ensures |Entries(heap, indexById)| == |heap|
    decreases |heap|
  {
    var entries := Entries(heap, indexById);
    if heap == [] {
      assert entries == map[];
    } else {
      var last := |heap| - 1;
      PopKeeps(heap, indexById);
      assert heap[last].id in indexById;
      hide Indexed, Entries;
      SizeAgrees(heap[..last], indexById - {heap[last].id});
      assert entries.Keys == (entries - {heap[last].id}).Keys + {heap[last].id};
    }
  }

  lemma AppendKeeps<T>(heap: seq<Node<T>>, indexById: map<string, nat>, node: Node<T>)
    requires Indexed(heap, indexById) && node.id !in indexById
    ensures var index' := indexById[node.id := |heap|];
            Indexed(heap + [node], index') &&
            Entries(heap + [node], index') == Entries(heap, indexById)[node.id := EntryOf(node)]
  {
    assert forall i | 0 <= i < |heap| :: heap[i].id in indexById;
  }

  lemma AppendOrdered<T>(heap: seq<Node<T>>, node: Node<T>)
    requires HeapOrdered(heap)
    ensures OrderedAbove(heap + [node], |heap|)
  {
    forall i | 0 < i < |heap| ensures EdgeOk(heap + [node], i) {
      assert EdgeOk(heap, i);
    }
  }

  lemma PopKeeps<T>(heap: seq<Node<T>>, indexById: map<string, nat>)
    requires |heap| > 0 && Indexed(heap, indexById)
    ensures var last := |heap| - 1;
            var index' := indexById - {heap[last].id};
            Indexed(heap[..last], index') &&
            Entries(heap[..last], index') == Entries(heap, indexById) - {heap[last].id}
  {
    var last := |heap| - 1;
    forall i | 0 <= i < last
      ensures heap[i].id != heap[last].id
    {
      assert indexById[heap[i].id] == i && indexById[heap[last].id] == last;
    }
  }

  lemma PopOrdered<T>(heap: seq<Node<T>>)
    requires |heap| > 0 && HeapOrdered(heap)
    ensures HeapOrdered(heap[..|heap| - 1])
  {
    var h := heap[..|heap| - 1];
    forall i | 0 < i < |h| ensures EdgeOk(h, i) {
      assert EdgeOk(heap, i);
    }
  }

  /** The array after its last node has been moved over position `index`. */
  function FillHole<T>(heap: seq<Node<T>>, index: nat): seq<Node<T>>
    requires index < |heap| - 1
  {
    heap[..|heap| - 1][index := heap[|heap| - 1]]
  }

  lemma FillHoleKeeps<T>(heap: seq<Node<T>>, indexById: map<string, nat>, index: nat)
    requires index < |heap| - 1 && Indexed(heap, indexById)
    ensures var index' := (indexById - {heap[index].id})[heap[|heap| - 1].id := index];
            Indexed(FillHole(heap, index), index') &&
            Entries(FillHole(heap, index), index') == Entries(heap, indexById) - {heap[index].id}
  {
    var last := |heap| - 1;
    assert indexById[heap[last].id] == last && indexById[heap[index].id] == index;
  }

  /** Everything a removal from the middle of the array leaves for one sift to repair. */
  lemma FillHoleReady<T>(heap: seq<Node<T>>, indexById: map<string, nat>, index: nat)
    requires index < |heap| - 1 && Indexed(heap, indexById) && HeapOrdered(heap)
    ensures var h := FillHole(heap, index);
            var index' := (indexById - {heap[index].id})[heap[|heap| - 1].id := index];
            && Indexed(h, index') && Entries(h, index') == Entries(heap, indexById) - {heap[index].id}
            && (if index > 0 && IsHigherPriority(h[index], h[ParentOf(index)]) then OrderedAbove(h, index)
                else OrderedBelow(h, index))
  {
    FillHoleKeeps(heap, indexById, index);
    if index > 0 && IsHigherPriority(heap[|heap| - 1], heap[ParentOf(index)]) {
      FillHoleAbove(heap, index);
    } else {
      FillHoleBelow(heap, index);
    }
  }

  lemma FillHoleAbove<T>(heap: seq<Node<T>>, index: nat)
    requires 0 < index < |heap| - 1 && HeapOrdered(heap)
    requires IsHigherPriority(heap[|heap| - 1], heap[ParentOf(index)])
    ensures OrderedAbove(FillHole(heap, index), index)
  {
    var h := FillHole(heap, index);
    assert EdgeOk(heap, index);
    forall i | 0 < i < |h| && i != index ensures EdgeOk(h, i) {
      assert EdgeOk(heap, i);
    }
    forall c | 0 < c < |h| && ParentOf(c) == index
      ensures !IsHigherPriority(h[c], h[ParentOf(index)])
    {
      assert EdgeOk(heap, c);
    }
  }

  lemma FillHoleBelow<T>(heap: seq<Node<T>>, index: nat)
    requires index < |heap| - 1 && HeapOrdered(heap)
    requires index == 0 || !IsHigherPriority(heap[|heap| - 1], heap[ParentOf(index)])
    ensures OrderedBelow(FillHole(heap, index), index)
  {
    var h := FillHole(heap, index);
    forall i | 0 < i < |h| && ParentOf(i) != index ensures EdgeOk(h, i) {
      assert EdgeOk(heap, i);
    }
    if index > 0 {
      assert EdgeOk(heap, index);
      forall c | 0 < c < |h| && ParentOf(c) == index
        ensures !IsHigherPriority(h[c], h[ParentOf(index)])
      {
        assert EdgeOk(heap, c);
      }
    }
  }

  /** Re-prioritising one node leaves at most one kind of violation, at that node. */
  lemma ReprioritiseKeepsOrder<T>(heap: seq<Node<T>>, k: nat, priority: int)
    requires k < |heap| && HeapOrdered(heap)
    ensures var h := heap[k := heap[k].(priority := priority)];
            && (priority < heap[k].priority ==> OrderedAbove(h, k))
            && (priority > heap[k].priority ==> OrderedBelow(h, k))
  {
    var h := heap[k := heap[k].(priority := priority)];
    forall i | 0 < i < |h| ensures EdgeOk(heap, i) && (i != k && ParentOf(i) != k ==> EdgeOk(h, i)) {
      assert EdgeOk(heap, i);
    }
  }

  /** A node no worse than both possible children of `k` is no worse than any child of `k`. */
  lemma ChildrenOf<T>(heap: seq<Node<T>>, k: nat, best: Node<T>)
    requires k < |heap|
    requires 2 * k + 1 < |heap| ==> !IsHigherPriority(heap[2 * k + 1], best)
    requires 2 * k + 2 < |heap| ==> !IsHigherPriority(heap[2 * k + 2], best)
    ensures forall c | 0 < c < |heap| && ParentOf(c) == k :: !IsHigherPriority(heap[c], best)
  {
    forall c | 0 < c < |heap| && ParentOf(c) == k
      ensures !IsHigherPriority(heap[c], best)
    {
      assert c == 2 * k + 1 || c == 2 * k + 2;
    }
  }

  /** The array and index a sift is really working on: the hole at `index` holds `node`. */
  ghost predicate Sifting<T>(heap: seq<Node<T>>, indexById: map<string, nat>, node: Node<T>, index: nat,
                             entries: map<string, Entry<T>>) {
    && index < |heap|
    && Indexed(heap[index := node], indexById[node.id := index])
    && Entries(heap[index := node], indexById[node.id := index]) == entries
  }

  ghost predicate SiftingUp<T>(heap: seq<Node<T>>, indexById: map<string, nat>, node: Node<T>, index: nat,
                               entries: map<string, Entry<T>>) {
    Sifting(heap, indexById, node, index, entries) && OrderedAbove(heap[index := node], index)
  }

  ghost predicate SiftingDown<T>(heap: seq<Node<T>>, indexById: map<string, nat>, node: Node<T>, index: nat,
                                 entries: map<string, Entry<T>>) {
    Sifting(heap, indexById, node, index, entries) && OrderedBelow(heap[index := node], index)
  }

  lemma SiftStep<T>(heap: seq<Node<T>>, indexById: map<string, nat>, node: Node<T>, from: nat, to: nat,
                    entries: map<string, Entry<T>>)
    requires Sifting(heap, indexById, node, from, entries) && to < |heap| && from != to
    ensures Sifting(heap[from := heap[to]], indexById[heap[to].id := from], node, to, entries)
    ensures heap[from := heap[to]][to := node] == Swap(heap[from := node], from, to)
  {
    var full, fullIndex := heap[from := node], indexById[node.id := from];
    SwapKeepsEntries(full, fullIndex, from, to);
    assert heap[from := heap[to]][to := node] == Swap(full, from, to);
    var index1: map<string, nat> := fullIndex[full[to].id := from];
    assert indexById[heap[to].id := from][node.id := to] == index1[node.id := to];
  }

  /** One turn of the upward loop: the hole moves to the parent, or the node goes where the hole is. */
  lemma SiftUpStep<T>(heap: seq<Node<T>>, indexById: map<string, nat>, node: Node<T>, index: nat,
                      entries: map<string, Entry<T>>)
    requires index > 0 && SiftingUp(heap, indexById, node, index, entries)
    ensures index < |heap|
    ensures var parent := ParentOf(index);
            if IsHigherPriority(node, heap[parent]) then
              SiftingUp(heap[index := heap[parent]], indexById[heap[parent].id := index], node, parent, entries)
            else HeapOrdered(heap[index := node])
  {
    var full := heap[index := node];
    if IsHigherPriority(node, heap[ParentOf(index)]) {
      SiftStep(heap, indexById, node, index, ParentOf(index), entries);
      SwapUp(full, index);
    } else {
      assert EdgeOk(full, index);
    }
  }

  /** `best` is where the better of `node` and the children of `index` sits. */
  predicate BestOf<T>(heap: seq<Node<T>>, node: Node<T>, index: nat, best: nat)
    requires index < |heap|
  {
    var left, right := 2 * index + 1, 2 * index + 2;
    && (best == index || best == left || best == right) && best < |heap|
    && var bestNode := if best == index then node else heap[best];
    && (best != index ==> IsHigherPriority(bestNode, node))
    && (left < |heap| ==> !IsHigherPriority(heap[left], bestNode))
    && (right < |heap| ==> !IsHigherPriority(heap[right], bestNode))
  }

  /** One turn of the downward loop: the hole moves to the better child, or the node goes where the hole is. */
  lemma SiftDownStep<T>(heap: seq<Node<T>>, indexById: map<string, nat>, node: Node<T>, index: nat, best: nat,
                        entries: map<string, Entry<T>>)
    requires index < |heap| && SiftingDown(heap, indexById, node, index, entries)
    requires BestOf(heap, node, index, best)
    ensures if best == index then HeapOrdered(heap[index := node])
            else
              && SiftingDown(heap[index := heap[best]], indexById[heap[best].id := index], node, best, entries)
              && index < best < |heap| && Depth(best) == Depth(index) + 1
  {
    var full := heap[index := node];
    if best == index {
      ChildrenOf(full, index, node);
      forall i | 0 < i < |full| ensures EdgeOk(full, i) {
        if ParentOf(i) != index {
          assert EdgeOk(full, i);
        }
      }
    } else {
      ChildrenOf(full, index, heap[best]);
      SiftStep(heap, indexById, node, index, best, entries);
      SwapDown(full, index, best);
    }
  }

  lemma SiftingStarts<T>(heap: seq<Node<T>>, indexById: map<string, nat>, index: nat, entries: map<string, Entry<T>>)
    requires index < |heap| && Indexed(heap, indexById) && Entries(heap, indexById) == entries
    ensures OrderedAbove(heap, index) ==> SiftingUp(heap, indexById, heap[index], index, entries)
    ensures OrderedBelow(heap, index) ==> SiftingDown(heap, indexById, heap[index], index, entries)
  {
    assert heap[index := heap[index]] == heap && indexById[heap[index].id := index] == indexById;
  }

  lemma SiftingDone<T>(heap: seq<Node<T>>, indexById: map<string, nat>, node: Node<T>, index: nat,
                       entries: map<string, Entry<T>>)
    requires SiftingUp(heap, indexById, node, index, entries) || SiftingDown(heap, indexById, node, index, entries)
    ensures index < |heap| && Indexed(heap[index := node], indexById[node.id := index])
    ensures Entries(heap[index := node], indexById[node.id := index]) == entries
    ensures index == 0 && SiftingUp(heap, indexById, node, index, entries) ==> HeapOrdered(heap[index := node])
  {
  }

  lemma DepthBound(index: nat, length: nat)
    requires index < length
    ensures Depth(index) <= FloorLog2(length)
  {
    DepthIsLog(index);
    FloorLog2Monotone(index + 1, length);
  }

  lemma Reprioritise<T>(heap: seq<Node<T>>, indexById: map<string, nat>, k: nat, priority: int)
    requires k < |heap| && Indexed(heap, indexById) && HeapOrdered(heap)
    ensures var h := heap[k := heap[k].(priority := priority)];
            var entries := Entries(heap, indexById);
            && Indexed(h, indexById)
            && Entries(h, indexById) == entries[heap[k].id := entries[heap[k].id].(priority := priority)]
            && (if priority < heap[k].priority then OrderedAbove(h, k)
                else if priority > heap[k].priority then OrderedBelow(h, k)
                else HeapOrdered(h))
  {
    var h := heap[k := heap[k].(priority := priority)];
    assert forall i | 0 <= i < |heap| :: h[i].id == heap[i].id;
    ReprioritiseKeepsOrder(heap, k, priority);
    if priority == heap[k].priority {
      assert h == heap;
    }
  }

  lemma TopIsLeast<T>(heap: seq<Node<T>>, indexById: map<string, nat>, next: nat)
    requires |heap| > 0 && Indexed(heap, indexById) && HeapOrdered(heap)
    requires WellFormed(Queue(Entries(heap, indexById), next))
    ensures IsLeast(Entries(heap, indexById), heap[0].id)
  {
    var entries := Entries(heap, indexById);
    forall id | id in entries && id != heap[0].id
      ensures Before(entries[heap[0].id], entries[id])
    {
      RootIsBest(heap, indexById[id]);
    }
  }
}

module PriorityQueues {
  import opened QueueModel
  import opened HeapShape

  class PriorityQueue<T> {
    var heap: seq<Node<T>>
    var indexById: map<string, nat>
    var nextSeq: nat
    const onDuplicateId: DuplicatePolicy

    /** The map this heap stands for. */
    ghost function Abstract(): Queue<T>
      reads this
      requires Indexed(heap, indexById)
    {
      Queue(Entries(heap, indexById), nextSeq)
    }

    ghost predicate Valid()
      reads this
    {
      Indexed(heap, indexById) && HeapOrdered(heap) && WellFormed(Abstract())
    }

    constructor (onDuplicateId: DuplicatePolicy := Reject)
      ensures Valid() && Abstract() == Queue(map[], 0) && this.onDuplicateId == onDuplicateId
    {
      heap, indexById, nextSeq := [], map[], 0;
      this.onDuplicateId := onDuplicateId;
    }

    method Size() returns (n: nat)
      requires Valid()
      ensures n == |Abstract().entries|
    {
      n := |heap|;
      SizeAgrees(heap, indexById);
    }

    method Has(id: string) returns (present: bool)
      requires Valid()
      ensures present <==> id in Abstract().entries
    {
      present := id in indexById;
    }

    method Enqueue(id: string, priority: int, payload: T) returns (reply: Reply<T>)
      requires Valid()
      modifies this
      ensures Valid() && (Abstract(), reply) == Step(onDuplicateId, old(Abstract()), Op.Enqueue(id, priority, payload))
    {
      ghost var entries := Abstract().entries[id := Entry(priority, nextSeq, payload)];
      if id in indexById {
        if onDuplicateId.Reject? {
          return DuplicateId(id);
        }
        RemoveInternal(indexById[id]);
      }
      assert Abstract().entries[id := Entry(priority, nextSeq, payload)] == entries;
      assert WellFormed(Queue(entries, nextSeq + 1));
      Append(Node(id, priority, nextSeq, payload), entries);
      return Done;
    }

    method Append(node: Node<T>, ghost entries: map<string, Entry<T>>)
      requires Valid() && node.id !in indexById && node.seqNo == nextSeq
      requires entries == Abstract().entries[node.id := EntryOf(node)] && WellFormed(Queue(entries, nextSeq + 1))
      modifies this
      ensures Valid() && Abstract() == Queue(entries, old(nextSeq) + 1)
    {
      AppendKeeps(heap, indexById, node);
      AppendOrdered(heap, node);
      nextSeq := nextSeq + 1;
      var index := |heap|;
      heap := heap + [node];
      indexById := indexById[node.id := index];
      ghost var moves := SiftUp(index, entries);
    }

    method Dequeue() returns (reply: Reply<T>)
      requires Valid()
      modifies this
      ensures Valid() && (Abstract(), reply) == Step(onDuplicateId, old(Abstract()), Op.Dequeue)
    {
      ghost var q := Abstract();
      if |heap| == 0 {
        assert q.entries == map[];
        return Nothing;
      }
      var top := heap[0];
      assert top.id in q.entries;
      assert top.id == LeastId(q) by { TopIsLeast(heap, indexById, nextSeq); }
      RemoveInternal(0);
      return Took(top.id, top.priority, top.payload);
    }

    method Peek() returns (reply: Reply<T>)
      requires Valid()
      ensures reply == Step(onDuplicateId, Abstract(), Op.Dequeue).1
    {
      if |heap| == 0 {
        assert Abstract().entries == map[];
        return Nothing;
      }
      assert heap[0].id in Abstract().entries;
      assert heap[0].id == LeastId(Abstract()) by { TopIsLeast(heap, indexById, nextSeq); }
      return Took(heap[0].id, heap[0].priority, heap[0].payload);
    }

    method UpdatePriority(id: string, priority: int) returns (reply: Reply<T>)
      requires Valid()
      modifies this
      ensures Valid() && (Abstract(), reply) == Step(onDuplicateId, old(Abstract()), Op.UpdatePriority(id, priority))
    {
      if id !in indexById {
        return UnknownId(id);
      }
      var index := indexById[id];
      var oldPriority := heap[index].priority;
      assert heap[index].id == id;
      hide Indexed, HeapOrdered, OrderedAbove, OrderedBelow;
      ghost var q := Abstract();
      ghost var entries := q.entries[id := q.entries[id].(priority := priority)];
      assert Step(onDuplicateId, q, Op.UpdatePriority(id, priority)) == (Queue(entries, nextSeq), Reply<T>.Done);
      StepWellFormed(onDuplicateId, q, Op.UpdatePriority(id, priority));
      assert WellFormed(Queue(entries, nextSeq));
      hide WellFormed, Step, Entries;
      Reprioritise(heap, indexById, index, priority);
      heap := heap[index := heap[index].(priority := priority)];
      if priority < oldPriority {
        ghost var moves := SiftUp(index, entries);
      } else if priority > oldPriority {
        ghost var moves := SiftDown(index, entries);
      }
      return Done;
    }

    method Remove(id: string) returns (reply: Reply<T>)
      requires Valid()
      modifies this
      ensures Valid() && (Abstract(), reply) == Step(onDuplicateId, old(Abstract()), Op.Remove(id))
    {
      if id !in indexById {
        return Nothing;
      }
      var node := heap[indexById[id]];
      RemoveInternal(indexById[id]);
      return Took(node.id, node.priority, node.payload);
    }

    method RemoveInternal(index: nat)
      requires Valid() && index < |heap|
      modifies this`heap, this`indexById
      ensures Valid() && Abstract() == old(Abstract()).(entries := old(Abstract()).entries - {old(heap)[index].id})
    {
      hide Indexed, HeapOrdered, OrderedAbove, OrderedBelow;
      var lastIndex := |heap| - 1;
      var removed := heap[index];
      ghost var kept := Entries(heap, indexById) - {removed.id};
      assert WellFormed(Queue(kept, nextSeq));
      if index == lastIndex {
        PopKeeps(heap, indexById);
        PopOrdered(heap);
        indexById := indexById - {removed.id};
        heap := heap[..lastIndex];
        return;
      }
      FillHoleReady(heap, indexById, index);
      var moved := heap[lastIndex];
      indexById := indexById - {removed.id};
      indexById := indexById[moved.id := index];
      heap := heap[..lastIndex][index := moved];
      if index > 0 && IsHigherPriority(moved, heap[ParentOf(index)]) {
        ghost var moves := SiftUp(index, kept);
      } else {
        ghost var moves := SiftDown(index, kept);
      }
    }

    /** Restores heap order upwards by moving a hole; the node is written once, at the end. */
    method SiftUp(startIndex: nat, ghost entries: map<string, Entry<T>>) returns (ghost moves: nat)
      requires startIndex < |heap| && Indexed(heap, indexById) && Entries(heap, indexById) == entries
      requires OrderedAbove(heap, startIndex)
      modifies this`heap, this`indexById
      ensures Indexed(heap, indexById) && Entries(heap, indexById) == entries
      ensures HeapOrdered(heap) && |heap| == |old(heap)| && moves <= FloorLog2(|heap|)
    {
      hide Indexed, HeapOrdered, OrderedAbove, Sifting, SiftingUp, Entries, FloorLog2;
      var index := startIndex;
      var node := heap[index];
      moves := 0;
      SiftingStarts(heap, indexById, index, entries);
      DepthBound(startIndex, |heap|);
      while index > 0
        invariant index < |heap| == |old(heap)| && SiftingUp(heap, indexById, node, index, entries)
        invariant moves + Depth(index) == Depth(startIndex)
      {
        var parentIndex := ParentOf(index);
        var parent := heap[parentIndex];
        SiftUpStep(heap, indexById, node, index, entries);
        if !IsHigherPriority(node, parent) {
          break;
        }
        heap := heap[index := parent];
        indexById := indexById[parent.id := index];
        index := parentIndex;
        moves := moves + 1;
      }
      SiftingDone(heap, indexById, node, index, entries);
      heap := heap[index := node];
      indexById := indexById[node.id := index];
    }

    /** Restores heap order downwards, following the better child. */
    method SiftDown(startIndex: nat, ghost entries: map<string, Entry<T>>) returns (ghost moves: nat)
      requires startIndex < |heap| && Indexed(heap, indexById) && Entries(heap, indexById) == entries
      requires OrderedBelow(heap, startIndex)
      modifies this`heap, this`indexById
      ensures Indexed(heap, indexById) && Entries(heap, indexById) == entries
      ensures HeapOrdered(heap) && |heap| == |old(heap)| && moves <= FloorLog2(|heap|)
    {
      hide Indexed, HeapOrdered, OrderedBelow, Sifting, SiftingDown, Entries, FloorLog2, Depth;
      var index := startIndex;
      var node := heap[index];
      var length := |heap|;
      moves := 0;
      SiftingStarts(heap, indexById, index, entries);
      while true
        invariant index < length == |heap| == |old(heap)|
        invariant SiftingDown(heap, indexById, node, index, entries)
        invariant Depth(index) == Depth(startIndex) + moves
        decreases length - index
      {
        var leftIndex := index * 2 + 1;
        var rightIndex := leftIndex + 1;
        var bestIndex := index;
        var best := node;
        if leftIndex < length && IsHigherPriority(heap[leftIndex], best) {
          bestIndex := leftIndex;
          best := heap[leftIndex];
        }
        if rightIndex < length && IsHigherPriority(heap[rightIndex], best) {
          bestIndex := rightIndex;
          best := heap[rightIndex];
        }
        assert BestOf(heap, node, index, bestIndex);
        hide BestOf, IsHigherPriority;
        SiftDownStep(heap, indexById, node, index, bestIndex, entries);
        if bestIndex == index {
          break;
        }
        assert best == heap[bestIndex];
        heap := heap[index := best];
        indexById := indexById[best.id := index];
        index := bestIndex;
        moves := moves + 1;
      }
      SiftingDone(heap, indexById, node, index, entries);
      heap := heap[index := node];
      indexById := indexById[node.id := index];
      DepthBound(index, length);
    }
  }
}
