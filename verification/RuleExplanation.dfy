/** Rules built from leaves with all, any and not; the leaves behind a verdict. */
module BooleanRules {
  datatype Rule<L> =
    | Leaf(leaf: L)
    | All(children: seq<Rule<L>>)
    | Any(children: seq<Rule<L>>)
    | Not(child: Rule<L>)

  function Eval<L>(r: Rule<L>, truth: L -> bool): bool {
    match r
    case Leaf(l) => truth(l)
    case All(children) => forall i | 0 <= i < |children| :: Eval(children[i], truth)
    case Any(children) => exists i | 0 <= i < |children| :: Eval(children[i], truth)
    case Not(child) => !Eval(child, truth)
  }

  /** A child is asked for its leaves, unless only the children with the verdict in question are. */
  predicate Asks<L>(r: Rule<L>, truth: L -> bool, verdict: bool, i: nat)
    requires (r.All? || r.Any?) && i < |r.children|
  {
    r.All? == verdict || Eval(r.children[i], truth) == verdict
  }

  /** The leaves given for the verdict on a rule. */
  function Reasons<L>(r: Rule<L>, truth: L -> bool, verdict: bool): seq<L>
    decreases r, 0
  {
    match r
    case Leaf(l) => if truth(l) == verdict then [l] else []
    case Not(child) => Reasons(child, truth, !verdict)
    case _ => ReasonsUpTo(r, truth, verdict, |r.children|)
  }

  function ReasonsUpTo<L>(r: Rule<L>, truth: L -> bool, verdict: bool, k: nat): seq<L>
    requires (r.All? || r.Any?) && k <= |r.children|
    decreases r, 0, k
  {
    if k == 0 then []
    else
      ReasonsUpTo(r, truth, verdict, k - 1) +
      if Asks(r, truth, verdict, k - 1) then Reasons(r.children[k - 1], truth, verdict) else []
  }

  lemma {:induction false} ReasonsUpToMembers<L>(r: Rule<L>, truth: L -> bool, verdict: bool, k: nat, l: L)
    requires (r.All? || r.Any?) && k <= |r.children|
    ensures l in ReasonsUpTo(r, truth, verdict, k) <==>
            exists i: nat :: i < k && Asks(r, truth, verdict, i) && l in Reasons(r.children[i], truth, verdict)
    decreases k
  {
    if k > 0 {
      hide Asks, Reasons;
      ReasonsUpToMembers(r, truth, verdict, k - 1, l);
    }
  }

  lemma {:induction false} ReasonsUpToPrefix<L>(r: Rule<L>, q: Rule<L>, truth: L -> bool, verdict: bool, k: nat)
    requires (r.All? && q.All?) || (r.Any? && q.Any?)
    requires k <= |r.children| <= |q.children| && r.children == q.children[..|r.children|]
    ensures ReasonsUpTo(q, truth, verdict, k) == ReasonsUpTo(r, truth, verdict, k)
    decreases k
  {
    if k > 0 {
      hide Reasons;
      ReasonsUpToPrefix(r, q, truth, verdict, k - 1);
      assert q.children[k - 1] == r.children[k - 1];
    }
  }

  /**
   * Which members of a list are asked: for the denial of an all the failing ones, for a pass of an any the passing
   * ones, and otherwise every one, in order.
   */
  lemma ReasonsOfMembers<L>(cs: seq<Rule<L>>, c: Rule<L>, truth: L -> bool)
    ensures Reasons(All(cs + [c]), truth, false) ==
              Reasons(All(cs), truth, false) + if Eval(c, truth) then [] else Reasons(c, truth, false)
    ensures Reasons(All(cs + [c]), truth, true) == Reasons(All(cs), truth, true) + Reasons(c, truth, true)
    ensures Reasons(Any(cs + [c]), truth, true) ==
              Reasons(Any(cs), truth, true) + if Eval(c, truth) then Reasons(c, truth, true) else []
    ensures Reasons(Any(cs + [c]), truth, false) == Reasons(Any(cs), truth, false) + Reasons(c, truth, false)
  {
    forall verdict
      ensures Reasons(All(cs + [c]), truth, verdict) ==
                Reasons(All(cs), truth, verdict) +
                if verdict || !Eval(c, truth) then Reasons(c, truth, verdict) else []
      ensures Reasons(Any(cs + [c]), truth, verdict) ==
                Reasons(Any(cs), truth, verdict) +
                if !verdict || Eval(c, truth) then Reasons(c, truth, verdict) else []
    {
      LastMember(All(cs), All(cs + [c]), c, truth, verdict);
      LastMember(Any(cs), Any(cs + [c]), c, truth, verdict);
    }
  }

  lemma LastMember<L>(r: Rule<L>, q: Rule<L>, c: Rule<L>, truth: L -> bool, verdict: bool)
    requires (r.All? && q.All?) || (r.Any? && q.Any?)
    requires q.children == r.children + [c]
    ensures Reasons(q, truth, verdict) ==
              Reasons(r, truth, verdict) +
              if r.All? == verdict || Eval(c, truth) == verdict then Reasons(c, truth, verdict) else []
  {
    ReasonsUpToPrefix(r, q, truth, verdict, |r.children|);
    assert q.children[|r.children|] == c;
  }

  /** The reasons of a leaf are the leaf, if it has the value in question; an empty list has none. */
  lemma ReasonsOfLeaf<L>(l: L, child: Rule<L>, truth: L -> bool, verdict: bool)
    ensures Reasons(Leaf(l), truth, verdict) == if truth(l) == verdict then [l] else []
    ensures Reasons(Not(child), truth, verdict) == Reasons(child, truth, !verdict)
    ensures Reasons(All([]), truth, verdict) == [] == Reasons(Any([]), truth, verdict)
  {
  }

  // --- the leaves are a certificate ---

  /** Where two sides agree on the listed leaves, they agree on the verdict. */
  lemma {:induction false} ReasonsSuffice<L>(r: Rule<L>, truth: L -> bool, other: L -> bool, verdict: bool)
    requires Eval(r, truth) == verdict
    requires forall l | l in Reasons(r, truth, verdict) :: other(l) == truth(l)
    ensures Eval(r, other) == verdict
    decreases r
  {
    match r
    case Leaf(l) =>
    case Not(child) => ReasonsSuffice(child, truth, other, !verdict);
    case _ =>
      forall i: nat | i < |r.children| && Eval(r.children[i], truth) == verdict
        ensures Eval(r.children[i], other) == verdict
      {
        forall l | l in Reasons(r.children[i], truth, verdict) ensures other(l) == truth(l) {
          ReasonsUpToMembers(r, truth, verdict, |r.children|, l);
          assert Asks(r, truth, verdict, i);
        }
        ReasonsSuffice(r.children[i], truth, other, verdict);
      }
  }

  // --- flipping the leaves flips the verdict ---

  /** The leaf stands under an even number of nots, or under an odd number. */
  ghost predicate Occurs<L>(r: Rule<L>, l: L, positive: bool) {
    match r
    case Leaf(l') => l == l' && positive
    case Not(child) => Occurs(child, l, !positive)
    case _ => exists i | 0 <= i < |r.children| :: Occurs(r.children[i], l, positive)
  }

  /** No leaf occurs both ways. */
  ghost predicate Unmixed<L(!new)>(r: Rule<L>) {
    forall l :: !Occurs(r, l, true) || !Occurs(r, l, false)
  }

  predicate NoEmptyList<L>(r: Rule<L>) {
    match r
    case Leaf(_) => true
    case Not(child) => NoEmptyList(child)
    case _ => r.children != [] && forall i | 0 <= i < |r.children| :: NoEmptyList(r.children[i])
  }

  /** The listed leaves change, and whatever changes does so in the direction that undoes the verdict. */
  ghost predicate Undoes<L(!new)>(r: Rule<L>, truth: L -> bool, other: L -> bool, verdict: bool) {
    && (forall l, positive | Occurs(r, l, positive) && other(l) != truth(l) :: other(l) == (positive != verdict))
    && (Eval(r, truth) == verdict ==> forall l | l in Reasons(r, truth, verdict) :: other(l) != truth(l))
  }

  lemma ChildUndoes<L(!new)>(r: Rule<L>, truth: L -> bool, other: L -> bool, verdict: bool, i: nat)
    requires (r.All? || r.Any?) && i < |r.children| && Undoes(r, truth, other, verdict)
    requires Eval(r, truth) != verdict ==> Eval(r.children[i], truth) != verdict
    ensures Undoes(r.children[i], truth, other, verdict)
  {
    var child := r.children[i];
    forall l, positive | Occurs(child, l, positive) && other(l) != truth(l) ensures other(l) == (positive != verdict) {
      assert Occurs(r, l, positive);
    }
    if Eval(child, truth) == verdict {
      assert Asks(r, truth, verdict, i);
      forall l | l in Reasons(child, truth, verdict) ensures other(l) != truth(l) {
        ReasonsUpToMembers(r, truth, verdict, |r.children|, l);
      }
    }
  }

  /** Where the listed leaves change, and nothing changes the wrong way, the verdict is undone, and stays undone. */
  lemma {:induction false} UndoingUndoes<L(!new)>(r: Rule<L>, truth: L -> bool, other: L -> bool, verdict: bool)
    requires NoEmptyList(r) && Undoes(r, truth, other, verdict)
    ensures Eval(r, other) == !verdict
    decreases r
  {
    match r
    case Leaf(l) => assert Occurs(r, l, true);
    case Not(child) =>
      assert forall l, positive | Occurs(child, l, positive) :: Occurs(r, l, !positive);
      UndoingUndoes(child, truth, other, !verdict);
    case _ =>
      forall i: nat | i < |r.children| && (Eval(r, truth) != verdict ==> Eval(r.children[i], truth) != verdict)
        ensures Eval(r.children[i], other) == !verdict
      {
        ChildUndoes(r, truth, other, verdict, i);
        UndoingUndoes(r.children[i], truth, other, verdict);
      }
      assert Eval(r.children[0], other) == !verdict || Eval(r, truth) != verdict;
  }

  /** A listed leaf has the value that speaks for the verdict where it stands. */
  lemma {:induction false} ReasonsOccur<L>(r: Rule<L>, truth: L -> bool, verdict: bool, l: L)
    requires l in Reasons(r, truth, verdict)
    ensures exists positive :: Occurs(r, l, positive) && truth(l) == (positive == verdict)
    decreases r
  {
    match r
    case Leaf(_) => assert Occurs(r, l, true);
    case Not(child) =>
      ReasonsOccur(child, truth, !verdict, l);
      var positive :| Occurs(child, l, positive) && truth(l) == (positive == !verdict);
      assert Occurs(r, l, !positive);
    case _ =>
      ReasonsUpToMembers(r, truth, verdict, |r.children|, l);
      var i: nat :| i < |r.children| && Asks(r, truth, verdict, i) && l in Reasons(r.children[i], truth, verdict);
      ReasonsOccur(r.children[i], truth, verdict, l);
      var positive :| Occurs(r.children[i], l, positive) && truth(l) == (positive == verdict);
      assert Occurs(r, l, positive);
  }

  ghost predicate FlipsReasons<L(!new)>(r: Rule<L>, truth: L -> bool, other: L -> bool, verdict: bool) {
    forall l, positive | Occurs(r, l, positive) ::
      other(l) == if l in Reasons(r, truth, verdict) then !truth(l) else truth(l)
  }

  /** Flipping exactly the listed leaves turns the verdict around, if none occurs both ways and no list is empty. */
  lemma FlippingReasonsFlips<L(!new)>(r: Rule<L>, truth: L -> bool, other: L -> bool, verdict: bool)
    requires Unmixed(r) && NoEmptyList(r) && Eval(r, truth) == verdict && FlipsReasons(r, truth, other, verdict)
    ensures Eval(r, other) == !verdict
  {
    forall l | l in Reasons(r, truth, verdict)
      ensures exists positive :: Occurs(r, l, positive) && truth(l) == (positive == verdict)
    {
      ReasonsOccur(r, truth, verdict, l);
    }
    UndoingUndoes(r, truth, other, verdict);
  }
}

/** Validation of untrusted rules within limits of depth and size. */
module RuleInput {
  import opened BooleanRules

  /** Untrusted input; a node that has no children to look at is told from the others by its record. */
  datatype Raw<+R> =
    | Childless(record: R)
    | NotNode(child: Raw<R>)
    | ListNode(all: bool, children: seq<Raw<R>>)

  /** What a node without children is read as. */
  datatype Read<+L, +E> = Good(leaf: L) | Bad(code: E)

  datatype Refusal<+E> = MaxDepthExceeded | MaxNodesExceeded | Malformed(code: E)

  datatype Result<+T, +E> = Ok(value: T) | Err(error: Refusal<E>)

  datatype Limits = Limits(maxDepth: int, maxNodes: int)

  const DEFAULT_LIMITS := Limits(32, 500)

  predicate WellFormed<R, L, E>(raw: Raw<R>, read: R -> Read<L, E>) {
    match raw
    case Childless(record) => read(record).Good?
    case NotNode(child) => WellFormed(child, read)
    case ListNode(_, children) => forall i | 0 <= i < |children| :: WellFormed(children[i], read)
  }

  ghost predicate Contains<R>(raw: Raw<R>, record: R) {
    match raw
    case Childless(r) => r == record
    case NotNode(child) => Contains(child, record)
    case ListNode(_, children) => exists i | 0 <= i < |children| :: Contains(children[i], record)
  }

  /** Levels of nesting; a leaf is one. */
  function Depth<R>(raw: Raw<R>): (d: nat)
    ensures d >= 1
    decreases raw, 0
  {
    match raw
    case Childless(_) => 1
    case NotNode(child) => 1 + Depth(child)
    case ListNode(_, children) => 1 + DepthUpTo(raw, |children|)
  }

  function DepthUpTo<R>(raw: Raw<R>, k: nat): (d: nat)
    requires raw.ListNode? && k <= |raw.children|
    ensures forall i | 0 <= i < k :: Depth(raw.children[i]) <= d
    decreases raw, 0, k
  {
    if k == 0 then 0
    else
      var before, last := DepthUpTo(raw, k - 1), Depth(raw.children[k - 1]);
      if last > before then last else before
  }

  function Nodes<R>(raw: Raw<R>): (n: nat)
    ensures n >= 1
    decreases raw, 0
  {
    match raw
    case Childless(_) => 1
    case NotNode(child) => 1 + Nodes(child)
    case ListNode(_, children) => 1 + NodesUpTo(raw, |children|)
  }

  function NodesUpTo<R>(raw: Raw<R>, k: nat): nat
    requires raw.ListNode? && k <= |raw.children|
    decreases raw, 0, k
  {
    if k == 0 then 0 else NodesUpTo(raw, k - 1) + Nodes(raw.children[k - 1])
  }

  lemma {:induction false} NodesGrow<R>(raw: Raw<R>, k: nat, l: nat)
    requires raw.ListNode? && k <= l <= |raw.children|
    ensures NodesUpTo(raw, k) <= NodesUpTo(raw, l)
    decreases l
  {
    if k < l { NodesGrow(raw, k, l - 1); }
  }

  /** The depth of a node is one more than that of its deepest child; every node counts once. */
  lemma SizeLaws<R>(record: R, child: Raw<R>, all: bool, children: seq<Raw<R>>)
    ensures Depth(Childless(record)) == 1 && Nodes(Childless(record)) == 1
    ensures Depth(NotNode(child)) == 1 + Depth(child) && Nodes(NotNode(child)) == 1 + Nodes(child)
    ensures Depth<R>(ListNode(all, [])) == 1 && Nodes<R>(ListNode(all, [])) == 1
    ensures var (before, after) := (ListNode(all, children), ListNode(all, children + [child]));
            && Nodes(after) == Nodes(before) + Nodes(child)
            && Depth(after) == if Depth(before) < 1 + Depth(child) then 1 + Depth(child) else Depth(before)
  {
    MembersSame(ListNode(all, children), ListNode(all, children + [child]), |children|);
  }

  lemma {:induction false} MembersSame<R>(a: Raw<R>, b: Raw<R>, k: nat)
    requires a.ListNode? && b.ListNode? && k <= |a.children| <= |b.children|
    requires a.children == b.children[..|a.children|]
    ensures DepthUpTo(a, k) == DepthUpTo(b, k) && NodesUpTo(a, k) == NodesUpTo(b, k)
    decreases k
  {
    if k > 0 {
      MembersSame(a, b, k - 1);
      assert b.children[k - 1] == a.children[k - 1];
    }
  }

  /** The rule that well-formed input describes. */
  function Parsed<R, L, E>(raw: Raw<R>, read: R -> Read<L, E>): Rule<L>
    requires WellFormed(raw, read)
  {
    match raw
    case Childless(record) => Leaf(read(record).leaf)
    case NotNode(child) => Not(Parsed(child, read))
    case ListNode(all, children) =>
      var cs := seq(|children|, i requires 0 <= i < |children| => Parsed(children[i], read));
      if all then All(cs) else Any(cs)
  }

  /** When accepted input holds, said of the input: a list of all needs every member, one of any needs one. */
  lemma ParsedMeans<R, L, E>(raw: Raw<R>, read: R -> Read<L, E>, truth: L -> bool)
    requires WellFormed(raw, read)
    ensures raw.Childless? ==>
              read(raw.record).Good? && (Eval(Parsed(raw, read), truth) <==> truth(read(raw.record).leaf))
    ensures raw.NotNode? ==>
              WellFormed(raw.child, read) && (Eval(Parsed(raw, read), truth) <==> !Eval(Parsed(raw.child, read), truth))
    ensures raw.ListNode? ==> forall i | 0 <= i < |raw.children| :: WellFormed(raw.children[i], read)
    ensures raw.ListNode? && raw.all ==>
              (Eval(Parsed(raw, read), truth) <==>
                 forall i | 0 <= i < |raw.children| :: Eval(Parsed(raw.children[i], read), truth))
    ensures raw.ListNode? && !raw.all ==>
              (Eval(Parsed(raw, read), truth) <==>
                 exists i :: 0 <= i < |raw.children| && Eval(Parsed(raw.children[i], read), truth))
  {
    if raw.ListNode? {
      var parsed := Parsed(raw, read);
      assert |parsed.children| == |raw.children|;
      assert forall i | 0 <= i < |raw.children| :: parsed.children[i] == Parsed(raw.children[i], read);
    }
  }

  class NodeCount {
    var value: nat

    constructor ()
      ensures value == 0
    {
      value := 0;
    }
  }

  /** Within both limits and well-formed: exactly then it parses. */
  ghost predicate Parses<R, L, E>(raw: Raw<R>, read: R -> Read<L, E>, limits: Limits, count: nat, depth: nat) {
    WellFormed(raw, read) && depth + Depth(raw) <= limits.maxDepth + 1 && count + Nodes(raw) <= limits.maxNodes
  }

  /** A refusal names a limit only when that limit is exceeded, and another fault only of a node that has it. */
  ghost predicate Justified<R(!new), L, E>(e: Refusal<E>, raw: Raw<R>, read: R -> Read<L, E>, limits: Limits,
                                           count: nat, depth: nat) {
    match e
    case MaxDepthExceeded => depth + Depth(raw) > limits.maxDepth + 1
    case MaxNodesExceeded => count + Nodes(raw) > limits.maxNodes
    case Malformed(code) => exists record :: Contains(raw, record) && read(record) == Bad(code)
  }

  lemma {:induction false} WellFormedReads<R, L, E>(raw: Raw<R>, read: R -> Read<L, E>, record: R)
    requires WellFormed(raw, read) && Contains(raw, record)
    ensures read(record).Good?
    decreases raw
  {
    match raw
    case Childless(_) =>
    case NotNode(child) => WellFormedReads(child, read, record);
    case ListNode(_, children) =>
      var i :| 0 <= i < |children| && Contains(children[i], record);
      WellFormedReads(children[i], read, record);
  }

  /** What parses is never refused. */
  lemma JustifiedRefuses<R(!new), L, E>(e: Refusal<E>, raw: Raw<R>, read: R -> Read<L, E>, limits: Limits, count: nat,
                                        depth: nat)
    requires Justified(e, raw, read, limits, count, depth)
    ensures !Parses(raw, read, limits, count, depth)
  {
    if e.Malformed? && WellFormed(raw, read) {
      var record :| Contains(raw, record) && read(record) == Bad(e.code);
      WellFormedReads(raw, read, record);
    }
  }

  lemma NotJustifies<R(!new), L, E>(e: Refusal<E>, raw: Raw<R>, read: R -> Read<L, E>, limits: Limits, count: nat,
                                    depth: nat)
    requires raw.NotNode? && Justified(e, raw.child, read, limits, count + 1, depth + 1)
    ensures Justified(e, raw, read, limits, count, depth)
  {
    if e.Malformed? {
      var record :| Contains(raw.child, record) && read(record) == Bad(e.code);
      assert Contains(raw, record);
    }
  }

  lemma ChildJustifies<R(!new), L, E>(e: Refusal<E>, raw: Raw<R>, i: nat, read: R -> Read<L, E>, limits: Limits,
                                      count: nat, depth: nat)
    requires raw.ListNode? && i < |raw.children|
    requires Justified(e, raw.children[i], read, limits, count + 1 + NodesUpTo(raw, i), depth + 1)
    ensures Justified(e, raw, read, limits, count, depth)
  {
    NodesGrow(raw, i + 1, |raw.children|);
    if e.Malformed? {
      var record :| Contains(raw.children[i], record) && read(record) == Bad(e.code);
      assert Contains(raw, record);
    }
  }

  method ParseNode<R(!new), L, E>(raw: Raw<R>, read: R -> Read<L, E>, limits: Limits, nodeCount: NodeCount, depth: nat)
    returns (r: Result<Rule<L>, E>)
    modifies nodeCount
    ensures r.Ok? ==> Parses(raw, read, limits, old(nodeCount.value), depth) && r.value == Parsed(raw, read)
    ensures r.Ok? ==> nodeCount.value == old(nodeCount.value) + Nodes(raw)
    ensures r.Err? ==> Justified(r.error, raw, read, limits, old(nodeCount.value), depth)
    decreases raw, 1
  {
    if depth > limits.maxDepth {
      return Err(MaxDepthExceeded);
    }
    nodeCount.value := nodeCount.value + 1;
    if nodeCount.value > limits.maxNodes {
      return Err(MaxNodesExceeded);
    }
    match raw {
      case Childless(record) =>
        match read(record) {
          case Bad(code) =>
            assert Contains(raw, record);
            return Err(Malformed(code));
          case Good(leaf) => return Ok(Leaf(leaf));
        }
      case NotNode(child) =>
        var parsed := ParseNode(child, read, limits, nodeCount, depth + 1);
        if parsed.Err? {
          NotJustifies(parsed.error, raw, read, limits, old(nodeCount.value), depth);
          return parsed;
        }
        return Ok(Not(parsed.value));
      case ListNode(_, _) => r := ParseChildren(raw, read, limits, nodeCount, depth);
    }
  }

  lemma ListMeasures<R, L, E>(raw: Raw<R>, read: R -> Read<L, E>)
    requires raw.ListNode?
    ensures Depth(raw) == 1 + DepthUpTo(raw, |raw.children|) && Nodes(raw) == 1 + NodesUpTo(raw, |raw.children|)
    ensures WellFormed(raw, read) <==> forall i | 0 <= i < |raw.children| :: WellFormed(raw.children[i], read)
  {
  }

  lemma ParsedList<R, L, E>(raw: Raw<R>, read: R -> Read<L, E>, children: seq<Rule<L>>)
    requires raw.ListNode? && WellFormed(raw, read) && |children| == |raw.children|
    requires forall i | 0 <= i < |children| :: children[i] == Parsed(raw.children[i], read)
    ensures Parsed(raw, read) == if raw.all then All(children) else Any(children)
  {
    assert children == seq(|raw.children|, i requires 0 <= i < |raw.children| => Parsed(raw.children[i], read));
  }

  method ParseChildren<R(!new), L, E>(raw: Raw<R>, read: R -> Read<L, E>, limits: Limits, nodeCount: NodeCount,
                                      depth: nat)
    returns (r: Result<Rule<L>, E>)
    requires raw.ListNode? && nodeCount.value >= 1
    requires depth <= limits.maxDepth && nodeCount.value <= limits.maxNodes
    modifies nodeCount
    ensures r.Ok? ==> Parses(raw, read, limits, old(nodeCount.value) - 1, depth) && r.value == Parsed(raw, read)
    ensures r.Ok? ==> nodeCount.value == old(nodeCount.value) - 1 + Nodes(raw)
    ensures r.Err? ==> Justified(r.error, raw, read, limits, old(nodeCount.value) - 1, depth)
    decreases raw, 0
  {
    hide Depth, Nodes, WellFormed, Parsed;
    ListMeasures(raw, read);
    var rawChildren, children := raw.children, [];
    for i := 0 to |rawChildren|
      invariant |children| == i
      invariant forall j | 0 <= j < i :: WellFormed(rawChildren[j], read) && children[j] == Parsed(rawChildren[j], read)
      invariant depth + 1 + DepthUpTo(raw, i) <= limits.maxDepth + 1
      invariant nodeCount.value == old(nodeCount.value) + NodesUpTo(raw, i) <= limits.maxNodes
    {
      var parsed := ParseNode(rawChildren[i], read, limits, nodeCount, depth + 1);
      if parsed.Err? {
        ChildJustifies(parsed.error, raw, i, read, limits, old(nodeCount.value) - 1, depth);
        return parsed;
      }
      children := children + [parsed.value];
    }
    ParsedList(raw, read, children);
    return Ok(if raw.all then All(children) else Any(children));
  }

  /** Input is accepted exactly when it parses, and refused for a fault it has. */
  method Parse<R(!new), L, E>(raw: Raw<R>, read: R -> Read<L, E>, limits: Limits) returns (r: Result<Rule<L>, E>)
    ensures r.Ok? <==> Parses(raw, read, limits, 0, 1)
    ensures r.Ok? ==> r.value == Parsed(raw, read)
    ensures r.Err? ==> Justified(r.error, raw, read, limits, 0, 1)
  {
    hide WellFormed, Parsed, Depth, Nodes;
    var nodeCount := new NodeCount();
    r := ParseNode(raw, read, limits, nodeCount, 1);
    if r.Err? { JustifiedRefuses(r.error, raw, read, limits, 0, 1); }
  }
}

/** Permission expressions: evaluation and explanation. */
module PermissionExpression {
  import opened Wrappers
  import opened BooleanRules
  import opened RuleInput

  /** What is missing or of the wrong type is not told apart further; a missing child is not an object. */
  datatype RawPermission =
    | NotAnObject
    | UnknownType
    | PermissionNode(value: Option<string>)
    | ListWithoutChildren

  datatype ErrorCode = NotAnObjectError | UnknownNodeType | InvalidPermissionValue | InvalidChildren

  function ReadPermission(record: RawPermission): Read<string, ErrorCode> {
    match record
    case NotAnObject => Bad(NotAnObjectError)
    case UnknownType => Bad(UnknownNodeType)
    case PermissionNode(value) =>
      if value.None? || value.value == "" then Bad(InvalidPermissionValue) else Good(value.value)
    case ListWithoutChildren => Bad(InvalidChildren)
  }

  /** `granted.has(value)` */
  function Has(granted: set<string>): string -> bool {
    p => p in granted
  }

  method ReasonsNodeIsFalse(node: Rule<string>, granted: set<string>) returns (reasons: seq<string>)
    ensures reasons == Reasons(node, Has(granted), false)
    decreases node
  {
    match node {
      case Leaf(value) => return if value in granted then [] else [value];
      case All(children) =>
        reasons := [];
        for i := 0 to |children|
          invariant reasons == ReasonsUpTo(node, Has(granted), false, i)
        {
          if !Eval(children[i], Has(granted)) {
            var more := ReasonsNodeIsFalse(children[i], granted);
            reasons := reasons + more;
          }
        }
      case Any(children) =>
        reasons := [];
        for i := 0 to |children|
          invariant reasons == ReasonsUpTo(node, Has(granted), false, i)
        {
          var more := ReasonsNodeIsFalse(children[i], granted);
          reasons := reasons + more;
        }
      case Not(child) => reasons := ReasonsNodeIsTrue(child, granted);
    }
  }

  method ReasonsNodeIsTrue(node: Rule<string>, granted: set<string>) returns (reasons: seq<string>)
    ensures reasons == Reasons(node, Has(granted), true)
    decreases node
  {
    match node {
      case Leaf(value) => return if value in granted then [value] else [];
      case All(children) =>
        reasons := [];
        for i := 0 to |children|
          invariant reasons == ReasonsUpTo(node, Has(granted), true, i)
        {
          var more := ReasonsNodeIsTrue(children[i], granted);
          reasons := reasons + more;
        }
      case Any(children) =>
        reasons := [];
        for i := 0 to |children|
          invariant reasons == ReasonsUpTo(node, Has(granted), true, i)
        {
          if Eval(children[i], Has(granted)) {
            var more := ReasonsNodeIsTrue(children[i], granted);
            reasons := reasons + more;
          }
        }
      case Not(child) => reasons := ReasonsNodeIsFalse(child, granted);
    }
  }

  /** A permission node holds exactly when its non-empty value is among the granted ones. */
  lemma PermissionMeans(raw: Raw<RawPermission>, granted: set<string>)
    requires raw.Childless?
    ensures WellFormed(raw, ReadPermission) <==>
              raw.record.PermissionNode? && raw.record.value.Some? && raw.record.value.value != ""
    ensures WellFormed(raw, ReadPermission) ==>
              (Eval(Parsed(raw, ReadPermission), Has(granted)) <==> raw.record.value.value in granted)
  {
  }

  datatype Verdict = Verdict(granted: bool, deniedLeaves: Option<seq<string>>)

  predicate SameOn(leaves: seq<string>, granted: set<string>, other: set<string>) {
    forall p | p in leaves :: p in other <==> p in granted
  }

  /** Every grant set that agrees on the denied leaves is denied too. */
  lemma DeniedLeavesSuffice(e: Rule<string>, granted: set<string>, other: set<string>)
    requires !Eval(e, Has(granted)) && SameOn(Reasons(e, Has(granted), false), granted, other)
    ensures !Eval(e, Has(other))
  {
    ReasonsSuffice(e, Has(granted), Has(other), false);
  }

  /**
   * Granting the absent and revoking the present denied leaves turns a denial around, unless a permission is both
   * required and forbidden or an all or any is empty.
   */
  lemma FlippingDeniedLeavesGrants(e: Rule<string>, granted: set<string>, leaves: set<string>)
    requires Unmixed(e) && NoEmptyList(e) && !Eval(e, Has(granted))
    requires forall p :: p in leaves <==> p in Reasons(e, Has(granted), false)
    ensures Eval(e, Has((granted - leaves) + (leaves - granted)))
  {
    FlippingReasonsFlips(e, Has(granted), Has((granted - leaves) + (leaves - granted)), false);
  }

  /** A permission that is required and forbidden, and an empty all: flipping what is listed does not help. */
  lemma FlippingMayFail()
    ensures var e := All([Leaf("p"), Not(Leaf("p"))]);
            !Eval(e, Has({})) && Reasons(e, Has({}), false) == ["p"] && !Eval(e, Has({"p"}))
    ensures var e: Rule<string> := Not(All([]));
            !Eval(e, Has({})) && Reasons(e, Has({}), false) == []
  {
    var e := All([Leaf("p"), Not(Leaf("p"))]);
    assert Eval(e.children[0], Has({})) == false && Eval(e.children[1], Has({})) == true;
    assert Eval(e.children[0], Has({"p"})) == true && Eval(e.children[1], Has({"p"})) == false;
    assert ReasonsUpTo(e, Has({}), false, 0) == [];
    assert ReasonsUpTo(e, Has({}), false, 1) == ["p"];
    assert ReasonsUpTo(e, Has({}), false, 2) == ["p"];
  }

  /** Input is refused or evaluated as the expression it describes; a denial can be explained by its leaves. */
  method EvaluatePermissionExpression(raw: Raw<RawPermission>, granted: set<string>, limits: Limits := DEFAULT_LIMITS,
                                      explain: bool := false)
    returns (r: Result<Verdict, ErrorCode>)
    ensures r.Ok? <==> Parses(raw, ReadPermission, limits, 0, 1)
    ensures r.Err? ==> Justified(r.error, raw, ReadPermission, limits, 0, 1)
    ensures r.Ok? ==> r.value.granted == Eval(Parsed(raw, ReadPermission), Has(granted))
    ensures r.Ok? ==> (r.value.deniedLeaves.Some? <==> explain && !r.value.granted)
    ensures r.Ok? && r.value.deniedLeaves.Some? ==>
              && r.value.deniedLeaves.value == Reasons(Parsed(raw, ReadPermission), Has(granted), false)
              && forall other | SameOn(r.value.deniedLeaves.value, granted, other) ::
                   !Eval(Parsed(raw, ReadPermission), Has(other))
  {
    hide Reasons, Eval, Depth, Nodes, WellFormed, Parsed, Justified;
    var validated := Parse(raw, ReadPermission, limits);
    if validated.Err? {
      return Err(validated.error);
    }
    var isGranted := Eval(validated.value, Has(granted));
    if isGranted || !explain {
      return Ok(Verdict(isGranted, None));
    }
    var leaves := ReasonsNodeIsFalse(validated.value, granted);
    forall other | SameOn(leaves, granted, other) ensures !Eval(validated.value, Has(other)) {
      DeniedLeavesSuffice(validated.value, granted, other);
    }
    return Ok(Verdict(false, Some(leaves)));
  }
}

/** Eligibility rules: leaves that test facts, and the denial fields. */
module EligibilityRules {
  import opened Wrappers
  import opened BooleanRules
  import opened RuleInput

  datatype Num = Finite(r: real) | PlusInfinity | MinusInfinity | NaN

  /** A fact value; an object maps every property it has or inherits. */
  datatype Fact =
    | Undefined
    | Null
    | BoolFact(b: bool)
    | NumberFact(n: Num)
    | StringFact(s: string)
    | Object(properties: map<string, Fact>)
    | OtherFact

  datatype Scalar = StringScalar(s: string) | NumberScalar(n: Num) | BoolScalar(b: bool)

  datatype Test =
    | Equals(field: string, value: Scalar)
    | Exists(field: string)
    | In(field: string, values: seq<Scalar>)
    | Gte(field: string, bound: real)
    | Lte(field: string, bound: real)

  /** `field.split(".")` */
  function SplitDots(field: string): (segments: seq<string>)
    ensures segments != []
  {
    if field == "" then [""]
    else
      var rest := SplitDots(field[1..]);
      if field[0] == '.' then [""] + rest else [[field[0]] + rest[0]] + rest[1..]
  }

  /** The segments have no dots, and put together with dots are the field. */
  lemma {:induction false} SplitDotsJoins(field: string)
    ensures JoinDots(SplitDots(field)) == field
    ensures forall i | 0 <= i < |SplitDots(field)| :: '.' !in SplitDots(field)[i]
  {
    if field != "" {
      SplitDotsJoins(field[1..]);
      var rest := SplitDots(field[1..]);
      if field[0] == '.' {
        assert ([""] + rest)[1..] == rest;
      } else {
        assert ([[field[0]] + rest[0]] + rest[1..])[1..] == rest[1..];
      }
    }
  }

  function JoinDots(segments: seq<string>): string {
    if segments == [] then "" else if |segments| == 1 then segments[0] else segments[0] + "." + JoinDots(segments[1..])
  }

  function Lookup(current: Fact, segments: seq<string>): Option<Fact>
    decreases |segments|
  {
    if segments == [] then Some(current)
    else if current.Object? && segments[0] in current.properties
    then Lookup(current.properties[segments[0]], segments[1..])
    else None
  }

  function Resolved(facts: Fact, field: string): Option<Fact> {
    Lookup(facts, SplitDots(field))
  }

  method ResolveFact(facts: Fact, field: string) returns (found: Option<Fact>)
    ensures found == Resolved(facts, field)
  {
    var segments, current := SplitDots(field), facts;
    for i := 0 to |segments|
      invariant Lookup(current, segments[i..]) == Resolved(facts, field)
    {
      if !current.Object? || segments[i] !in current.properties {
        return None;
      }
      assert segments[i..][1..] == segments[i + 1..];
      current := current.properties[segments[i]];
    }
    return Some(current);
  }

  /** The facts a path leads through: each the property of the one before that the segment names. */
  ghost predicate LeadsThrough(path: seq<Fact>, segments: seq<string>) {
    && |path| == |segments| + 1
    && forall i | 0 <= i < |segments| ::
         path[i].Object? && segments[i] in path[i].properties && path[i].properties[segments[i]] == path[i + 1]
  }

  /** What is found is where the path leads, and nothing is found exactly when it leads nowhere. */
  lemma {:induction false} LookupFollows(current: Fact, segments: seq<string>) returns (path: seq<Fact>)
    ensures Lookup(current, segments).Some? ==>
              LeadsThrough(path, segments) && path[0] == current && path[|segments|] == Lookup(current, segments).value
    ensures Lookup(current, segments).None? ==>
              forall p | LeadsThrough(p, segments) :: p[0] != current
    decreases |segments|
  {
    path := [current];
    if segments != [] {
      if current.Object? && segments[0] in current.properties {
        var rest := LookupFollows(current.properties[segments[0]], segments[1..]);
        path := [current] + rest;
        forall p | LeadsThrough(p, segments) && p[0] == current && Lookup(current, segments).None? ensures false {
          assert p[1] == current.properties[segments[0]];
          TailLeads(p, segments);
        }
      }
    }
  }

  lemma TailLeads(p: seq<Fact>, segments: seq<string>)
    requires segments != [] && LeadsThrough(p, segments)
    ensures LeadsThrough(p[1..], segments[1..])
  {
    forall i | 0 <= i < |segments| - 1
      ensures p[1..][i].Object? && segments[1..][i] in p[1..][i].properties &&
              p[1..][i].properties[segments[1..][i]] == p[1..][i + 1]
    {
      assert p[1..][i] == p[i + 1] && segments[1..][i] == segments[i + 1];
    }
  }

  /** `===` between a fact and a scalar: not a number equals nothing. */
  predicate StrictlyEqual(f: Fact, v: Scalar) {
    match v
    case StringScalar(s) => f == StringFact(s)
    case NumberScalar(n) => f == NumberFact(n) && n != NaN
    case BoolScalar(b) => f == BoolFact(b)
  }

  /** `includes` finds a string or a number, not a number among them. */
  predicate Listed(f: Fact, values: seq<Scalar>) {
    match f
    case StringFact(s) => StringScalar(s) in values
    case NumberFact(n) => NumberScalar(n) in values
    case _ => false
  }

  predicate AtLeast(n: Num, bound: real) {
    n.PlusInfinity? || (n.Finite? && n.r >= bound)
  }

  predicate AtMost(n: Num, bound: real) {
    n.MinusInfinity? || (n.Finite? && n.r <= bound)
  }

  /** A test depends on the facts only through the field it resolves. */
  predicate Passes(t: Test, found: Option<Fact>) {
    && found.Some?
    && match t
       case Equals(_, v) => StrictlyEqual(found.value, v)
       case Exists(_) => true
       case In(_, values) => Listed(found.value, values)
       case Gte(_, bound) => found.value.NumberFact? && AtLeast(found.value.n, bound)
       case Lte(_, bound) => found.value.NumberFact? && AtMost(found.value.n, bound)
  }

  function HoldsFor(facts: Fact): Test -> bool {
    (t: Test) => Passes(t, Resolved(facts, t.field))
  }

  /** The failed tests of a denied rule; nothing for a rule that passes. */
  method CollectDenials(node: Rule<Test>, facts: Fact) returns (reasons: seq<Test>)
    ensures reasons == if Eval(node, HoldsFor(facts)) then [] else Reasons(node, HoldsFor(facts), false)
    decreases node
  {
    hide HoldsFor, Passes, Resolved;
    if Eval(node, HoldsFor(facts)) {
      return [];
    }
    match node {
      case Leaf(t) => return [t];
      case All(children) =>
        reasons := [];
        for i := 0 to |children|
          invariant reasons == ReasonsUpTo(node, HoldsFor(facts), false, i)
        {
          if !Eval(children[i], HoldsFor(facts)) {
            var more := CollectDenials(children[i], facts);
            reasons := reasons + more;
          }
        }
      case Any(children) =>
        reasons := [];
        for i := 0 to |children|
          invariant reasons == ReasonsUpTo(node, HoldsFor(facts), false, i)
        {
          var more := CollectDenials(children[i], facts);
          reasons := reasons + more;
        }
      case Not(child) => reasons := CollectTruths(child, facts);
    }
  }

  method CollectTruths(node: Rule<Test>, facts: Fact) returns (reasons: seq<Test>)
    ensures reasons == if Eval(node, HoldsFor(facts)) then Reasons(node, HoldsFor(facts), true) else []
    decreases node
  {
    hide HoldsFor, Passes, Resolved;
    if !Eval(node, HoldsFor(facts)) {
      return [];
    }
    match node {
      case Leaf(t) => return [t];
      case All(children) =>
        reasons := [];
        for i := 0 to |children|
          invariant reasons == ReasonsUpTo(node, HoldsFor(facts), true, i)
        {
          var more := CollectTruths(children[i], facts);
          reasons := reasons + more;
        }
      case Any(children) =>
        reasons := [];
        for i := 0 to |children|
          invariant reasons == ReasonsUpTo(node, HoldsFor(facts), true, i)
        {
          if Eval(children[i], HoldsFor(facts)) {
            var more := CollectTruths(children[i], facts);
            reasons := reasons + more;
          }
        }
      case Not(child) => reasons := CollectDenials(child, facts);
    }
  }

  ghost predicate SameFields(reasons: seq<Test>, facts: Fact, other: Fact) {
    forall t | t in reasons :: Resolved(other, t.field) == Resolved(facts, t.field)
  }

  /** Any facts with the same values in the denial fields are denied too, whatever else they say. */
  lemma DenialFieldsSuffice(rule: Rule<Test>, facts: Fact, other: Fact)
    requires !Eval(rule, HoldsFor(facts)) && SameFields(Reasons(rule, HoldsFor(facts), false), facts, other)
    ensures !Eval(rule, HoldsFor(other))
  {
    ReasonsSuffice(rule, HoldsFor(facts), HoldsFor(other), false);
  }

  // --- untrusted rules ---

  /** A `values` that is not an array is none. */
  datatype RawRule =
    | NotAnObject
    | UnknownType
    | EqualsNode(field: Fact, value: Fact)
    | ExistsNode(field: Fact)
    | InNode(field: Fact, values: Option<seq<Fact>>)
    | RangeNode(atLeast: bool, field: Fact, value: Fact)
    | NotWithoutChild
    | ListWithoutChildren

  datatype ErrorCode =
    | NotAnObjectError
    | UnknownRuleType
    | InvalidField
    | InvalidScalarValue
    | InvalidValuesArray
    | InvalidNumericValue
    | InvalidChildren
    | InvalidChild

  predicate IsField(f: Fact) {
    f.StringFact? && f.s != ""
  }

  function ScalarOf(f: Fact): Option<Scalar> {
    match f
    case StringFact(s) => Some(StringScalar(s))
    case NumberFact(n) => Some(NumberScalar(n))
    case BoolFact(b) => Some(BoolScalar(b))
    case _ => None
  }

  predicate IsListable(f: Fact) {
    f.StringFact? || f.NumberFact?
  }

  /** The field is checked first. */
  function ReadRule(record: RawRule): Read<Test, ErrorCode> {
    match record
    case NotAnObject => Bad(NotAnObjectError)
    case UnknownType => Bad(UnknownRuleType)
    case NotWithoutChild => Bad(InvalidChild)
    case ListWithoutChildren => Bad(InvalidChildren)
    case _ => if !IsField(record.field) then Bad(InvalidField) else ReadTest(record)
  }

  function ReadTest(record: RawRule): Read<Test, ErrorCode>
    requires record.EqualsNode? || record.ExistsNode? || record.InNode? || record.RangeNode?
    requires IsField(record.field)
  {
    var field := record.field.s;
    match record
    case EqualsNode(_, value) =>
      if ScalarOf(value).None? then Bad(InvalidScalarValue) else Good(Equals(field, ScalarOf(value).value))
    case ExistsNode(_) => Good(Exists(field))
    case InNode(_, values) =>
      if values.None? || exists i | 0 <= i < |values.value| :: !IsListable(values.value[i]) then Bad(InvalidValuesArray)
      else Good(In(field, seq(|values.value|, i requires 0 <= i < |values.value| => ScalarOf(values.value[i]).value)))
    case RangeNode(atLeast, _, value) =>
      if !value.NumberFact? || !value.n.Finite? then Bad(InvalidNumericValue)
      else Good(if atLeast then Gte(field, value.n.r) else Lte(field, value.n.r))
  }

  ghost predicate NamesField(record: RawRule) {
    match record
    case EqualsNode(field, _) => field.StringFact? && field.s != ""
    case ExistsNode(field) => field.StringFact? && field.s != ""
    case InNode(field, _) => field.StringFact? && field.s != ""
    case RangeNode(_, field, _) => field.StringFact? && field.s != ""
    case _ => false
  }

  /** Which fault each refusal names. */
  lemma FaultsNamed(record: RawRule)
    ensures ReadRule(record) == Bad(InvalidField) <==>
              !NamesField(record) && (record.EqualsNode? || record.ExistsNode? || record.InNode? || record.RangeNode?)
    ensures ReadRule(record) == Bad(InvalidScalarValue) <==>
              NamesField(record) && record.EqualsNode? &&
              !record.value.StringFact? && !record.value.NumberFact? && !record.value.BoolFact?
    ensures ReadRule(record) == Bad(InvalidValuesArray) <==>
              NamesField(record) && record.InNode? &&
              (record.values == None ||
               exists i :: 0 <= i < |record.values.value| && !record.values.value[i].StringFact? &&
                           !record.values.value[i].NumberFact?)
    ensures ReadRule(record) == Bad(InvalidNumericValue) <==>
              NamesField(record) && record.RangeNode? && !(record.value.NumberFact? && record.value.n.Finite?)
    ensures ReadRule(record).Good? ==> NamesField(record)
  {
  }

  ghost predicate Holds(raw: Raw<RawRule>, facts: Fact)
    requires WellFormed(raw, ReadRule)
  {
    Eval(Parsed(raw, ReadRule), HoldsFor(facts))
  }

  /** A bound node holds exactly when the field has a number on its side of the bound, infinities included. */
  lemma RangeMeans(atLeast: bool, field: string, bound: real, facts: Fact)
    requires field != ""
    ensures var raw := Childless(RangeNode(atLeast, StringFact(field), NumberFact(Finite(bound))));
            && WellFormed(raw, ReadRule)
            && (Holds(raw, facts) <==>
                  exists n :: Resolved(facts, field) == Some(NumberFact(n)) &&
                    (n == (if atLeast then PlusInfinity else MinusInfinity) ||
                     (n.Finite? && if atLeast then n.r >= bound else n.r <= bound)))
  {
    var raw := Childless(RangeNode(atLeast, StringFact(field), NumberFact(Finite(bound))));
    var found := Resolved(facts, field);
    hide Resolved;
    assert Holds(raw, facts) <==> Passes(if atLeast then Gte(field, bound) else Lte(field, bound), found);
    if found.Some? && found.value.NumberFact? { assert found == Some(NumberFact(found.value.n)); }
  }

  /** The other nodes: strict equality with a scalar, membership in a list, and being there at all. */
  lemma FieldMeans(field: string, facts: Fact, value: Fact, values: seq<Fact>)
    requires field != "" && (value.StringFact? || value.NumberFact? || value.BoolFact?)
    requires forall i | 0 <= i < |values| :: values[i].StringFact? || values[i].NumberFact?
    ensures var raw := Childless(EqualsNode(StringFact(field), value));
            WellFormed(raw, ReadRule) &&
            (Holds(raw, facts) <==> Resolved(facts, field) == Some(value) && value != NumberFact(NaN))
    ensures var raw := Childless(ExistsNode(StringFact(field)));
            WellFormed(raw, ReadRule) && (Holds(raw, facts) <==> Resolved(facts, field) != None)
    ensures var raw := Childless(InNode(StringFact(field), Some(values)));
            WellFormed(raw, ReadRule) &&
            (Holds(raw, facts) <==> exists i :: 0 <= i < |values| && Resolved(facts, field) == Some(values[i]))
  {
    var found := Resolved(facts, field);
    hide Resolved;
    var scalars := seq(|values|, i requires 0 <= i < |values| => ScalarOf(values[i]).value);
    assert ReadRule(InNode(StringFact(field), Some(values))) == Good(In(field, scalars));
    ListedIff(found, values, scalars);
  }

  lemma ListedIff(found: Option<Fact>, values: seq<Fact>, scalars: seq<Scalar>)
    requires forall i | 0 <= i < |values| :: values[i].StringFact? || values[i].NumberFact?
    requires |scalars| == |values| && forall i | 0 <= i < |values| :: Some(scalars[i]) == ScalarOf(values[i])
    ensures found.Some? && Listed(found.value, scalars) <==> exists i :: 0 <= i < |values| && found == Some(values[i])
  {
    if found.Some? && Listed(found.value, scalars) {
      var s := ScalarOf(found.value).value;
      var i :| 0 <= i < |scalars| && scalars[i] == s;
      assert found == Some(values[i]);
    }
    if i :| 0 <= i < |values| && found == Some(values[i]) { assert scalars[i] in scalars; }
  }

  datatype Verdict = Verdict(eligible: bool, denialReasons: Option<seq<Test>>)

  /** Input is refused or evaluated as the rule it describes; the reasons of a denial certify it. */
  method EvaluateEligibilityRule(raw: Raw<RawRule>, facts: Fact, limits: Limits := DEFAULT_LIMITS,
                                 explain: bool := false)
    returns (r: Result<Verdict, ErrorCode>)
    ensures r.Ok? <==> Parses(raw, ReadRule, limits, 0, 1)
    ensures r.Err? ==> Justified(r.error, raw, ReadRule, limits, 0, 1)
    ensures r.Ok? ==> r.value.eligible == Eval(Parsed(raw, ReadRule), HoldsFor(facts))
    ensures r.Ok? ==> (r.value.denialReasons.Some? <==> explain && !r.value.eligible)
    ensures r.Ok? && r.value.denialReasons.Some? ==>
              && r.value.denialReasons.value == Reasons(Parsed(raw, ReadRule), HoldsFor(facts), false)
              && forall other | SameFields(r.value.denialReasons.value, facts, other) ::
                   !Eval(Parsed(raw, ReadRule), HoldsFor(other))
  {
    hide Reasons, Eval, Resolved, Depth, Nodes, WellFormed, Parsed, Justified;
    var validated := Parse(raw, ReadRule, limits);
    if validated.Err? {
      return Err(validated.error);
    }
    var eligible := Eval(validated.value, HoldsFor(facts));
    if eligible || !explain {
      return Ok(Verdict(eligible, None));
    }
    var denialReasons := CollectDenials(validated.value, facts);
    forall other | SameFields(denialReasons, facts, other) ensures !Eval(validated.value, HoldsFor(other)) {
      DenialFieldsSuffice(validated.value, facts, other);
    }
    return Ok(Verdict(false, Some(denialReasons)));
  }

  /**
   * The code's `exists` differs from its comment's, "not undefined", exactly on a field that is there and
   * undefined.
   */
  lemma ExistsAgreesIff(facts: Fact, field: string)
    ensures (Eval(Leaf(Exists(field)), HoldsFor(facts)) <==> ReadAt(facts, field) != Undefined) <==>
            Resolved(facts, field) != Some(Undefined)
  {
  }

  /** What reading the path gives: undefined when a segment is missing. */
  function ReadAt(facts: Fact, field: string): Fact {
    match Resolved(facts, field)
    case Some(f) => f
    case None => Undefined
  }

  /** There is such a field. */
  lemma UndefinedExists()
    ensures Eval(Leaf(Exists("a")), HoldsFor(Object(map["a" := Undefined])))
  {
    assert "a"[1..] == "" && SplitDots("") == [""] && ['a'] + "" == "a" && [""][1..] == [];
    assert SplitDots("a") == [['a'] + ""] + [""][1..] == ["a"];
    assert ["a"][1..] == [];
  }
}
