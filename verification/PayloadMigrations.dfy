/** Registered steps, and the paths through them. */
module MigrationGraph {

  datatype Applied<+V> = Produced(value: V) | Threw

  datatype Migration<!V> = Migration(fromVersion: int, toVersion: int, migrate: V -> Applied<V>)

  /** Steps go up, and no two share both ends. */
  ghost predicate Upward<V>(ms: seq<Migration<V>>) {
    && (forall i | 0 <= i < |ms| :: ms[i].fromVersion < ms[i].toVersion)
    && (forall i, j | 0 <= i < j < |ms| ::
          ms[i].fromVersion != ms[j].fromVersion || ms[i].toVersion != ms[j].toVersion)
  }

  /** The steps out of version `v`, in registration order. */
  function Outgoing<V>(ms: seq<Migration<V>>, v: int): (r: seq<Migration<V>>)
    ensures forall i | 0 <= i < |r| :: r[i] in ms && r[i].fromVersion == v
  {
    if ms == [] then []
    else
      var front, last := Outgoing(ms[..|ms| - 1], v), ms[|ms| - 1];
      if last.fromVersion == v then front + [last] else front
  }

  lemma {:induction false} OutgoingComplete<V>(ms: seq<Migration<V>>, v: int)
    ensures forall i | 0 <= i < |ms| && ms[i].fromVersion == v :: ms[i] in Outgoing(ms, v)
  {
    if ms != [] {
      OutgoingComplete(ms[..|ms| - 1], v);
      forall i | 0 <= i < |ms| && ms[i].fromVersion == v
        ensures ms[i] in Outgoing(ms, v)
      {
        if i < |ms| - 1 { assert ms[..|ms| - 1][i] == ms[i]; }
      }
    }
  }

  lemma {:induction false} OutgoingDistinct<V>(ms: seq<Migration<V>>, v: int)
    requires Upward(ms)
    ensures forall i, j | 0 <= i < j < |Outgoing(ms, v)| :: Outgoing(ms, v)[i].toVersion != Outgoing(ms, v)[j].toVersion
  {
    if ms != [] {
      var front := ms[..|ms| - 1];
      OutgoingDistinct(front, v);
      var r := Outgoing(front, v);
      forall i | 0 <= i < |r| && ms[|ms| - 1].fromVersion == v
        ensures r[i].toVersion != ms[|ms| - 1].toVersion
      {
        var j :| 0 <= j < |front| && front[j] == r[i];
        assert ms[j] == r[i];
      }
    }
  }

  ghost predicate HasStep<V>(ms: seq<Migration<V>>, u: int, v: int) {
    exists i :: 0 <= i < |ms| && ms[i].fromVersion == u && ms[i].toVersion == v
  }

  ghost predicate Hop<V>(ms: seq<Migration<V>>, p: seq<int>, i: nat)
    requires i + 1 < |p|
  {
    HasStep(ms, p[i], p[i + 1])
  }

  /** `p` leads from `u` to `v` along registered steps, at most `limit` of them. */
  ghost predicate IsPath<V>(ms: seq<Migration<V>>, p: seq<int>, u: int, v: int, limit: int) {
    && |p| >= 2 && p[0] == u && p[|p| - 1] == v && |p| - 1 <= limit
    && forall i | 0 <= i < |p| - 1 :: Hop(ms, p, i)
  }

  /** Steps registered one after the other, each starting where the one before ended. */
  ghost predicate Chained<V>(ms: seq<Migration<V>>, steps: seq<Migration<V>>) {
    && (forall i | 0 <= i < |steps| :: steps[i] in ms)
    && (forall i | 0 < i < |steps| :: steps[i - 1].toVersion == steps[i].fromVersion)
  }

  /** The versions that such steps pass. */
  function Versions<V>(steps: seq<Migration<V>>): (p: seq<int>)
    requires steps != []
    ensures |p| == |steps| + 1 && p[0] == steps[0].fromVersion
    ensures forall i | 0 <= i < |steps| :: p[i + 1] == steps[i].toVersion
  {
    seq(|steps| + 1, i requires 0 <= i <= |steps| => if i == 0 then steps[0].fromVersion else steps[i - 1].toVersion)
  }

  ghost predicate LeadAlong<V>(ms: seq<Migration<V>>, steps: seq<Migration<V>>, p: seq<int>, u: int, v: int) {
    && steps != [] && Chained(ms, steps) && Versions(steps) == p
    && steps[0].fromVersion == u && steps[|steps| - 1].toVersion == v
  }

  /** A bounded path is what between one and `limit` registered steps pass from `u` to `v`. */
  lemma PathIffSteps<V>(ms: seq<Migration<V>>, p: seq<int>, u: int, v: int, limit: int)
    ensures IsPath(ms, p, u, v, limit) <==>
            exists steps :: LeadAlong(ms, steps, p, u, v) && |steps| <= limit
  {
    if IsPath(ms, p, u, v, limit) {
      var steps := StepsOf(ms, p);
      assert Versions(steps) == p;
      assert LeadAlong(ms, steps, p, u, v);
    }
    if steps :| LeadAlong(ms, steps, p, u, v) && |steps| <= limit {
      forall i | 0 <= i < |p| - 1 ensures Hop(ms, p, i) {
        assert steps[i] in ms;
        var j :| 0 <= j < |ms| && ms[j] == steps[i];
        assert ms[j].fromVersion == p[i] && ms[j].toVersion == p[i + 1];
      }
    }
  }

  lemma {:induction false} StepsOf<V>(ms: seq<Migration<V>>, p: seq<int>) returns (steps: seq<Migration<V>>)
    requires |p| >= 1 && forall i | 0 <= i < |p| - 1 :: Hop(ms, p, i)
    ensures |steps| == |p| - 1 && Chained(ms, steps)
    ensures forall i | 0 <= i < |steps| :: steps[i].fromVersion == p[i] && steps[i].toVersion == p[i + 1]
    decreases |p|
  {
    steps := [];
    if |p| > 1 {
      var k := |p| - 2;
      var q := p[..k + 1];
      forall i | 0 <= i < k ensures Hop(ms, q, i) { assert Hop(ms, p, i); }
      var front := StepsOf(ms, q);
      assert Hop(ms, p, k);
      var j :| 0 <= j < |ms| && ms[j].fromVersion == p[k] && ms[j].toVersion == p[k + 1];
      steps := front + [ms[j]];
    }
  }

  lemma {:induction false} PathAscends<V>(ms: seq<Migration<V>>, p: seq<int>, i: nat, j: nat)
    requires Upward(ms) && i < j < |p| && forall k | 0 <= k < |p| - 1 :: Hop(ms, p, k)
    ensures p[i] < p[j]
    decreases j
  {
    assert Hop(ms, p, j - 1);
    if i < j - 1 { PathAscends(ms, p, i, j - 1); }
  }

  predicate NoRepeats<T(==)>(s: seq<T>) {
    forall i, j | 0 <= i < j < |s| :: s[i] != s[j]
  }

  function Prefixed(prefix: seq<int>, ps: seq<seq<int>>): (r: seq<seq<int>>)
    ensures |r| == |ps|
  {
    seq(|ps|, i requires 0 <= i < |ps| => prefix + ps[i])
  }

  /** The paths the search lists from `v`, in its order. */
  function PathsFrom<V>(ms: seq<Migration<V>>, v: int, target: int, budget: int): seq<seq<int>>
    decreases budget, 1, 0
  {
    if budget <= 0 then [] else PathsVia(ms, Outgoing(ms, v), v, target, budget)
  }

  function PathsVia<V>(ms: seq<Migration<V>>, steps: seq<Migration<V>>, v: int, target: int, budget: int)
    : seq<seq<int>>
    requires budget > 0
    decreases budget, 0, |steps|
  {
    if steps == [] then []
    else PathsVia(ms, steps[..|steps| - 1], v, target, budget) +
         PathsBy(ms, steps[|steps| - 1].toVersion, v, target, budget)
  }

  /** The listed paths from `v` whose second version is `next`. */
  function PathsBy<V>(ms: seq<Migration<V>>, next: int, v: int, target: int, budget: int): seq<seq<int>>
    requires budget > 0
    decreases budget, 0, 0
  {
    if next == target then [[v, target]] else Prefixed([v], PathsFrom(ms, next, target, budget - 1))
  }

  // --- the search lists exactly the bounded paths, each once ---

  lemma PathTail<V>(ms: seq<Migration<V>>, p: seq<int>, u: int, v: int, limit: int)
    requires IsPath(ms, p, u, v, limit) && |p| > 2
    ensures IsPath(ms, p[1..], p[1], v, limit - 1) && HasStep(ms, u, p[1]) && p == [u] + p[1..]
  {
    var q := p[1..];
    assert Hop(ms, p, 0);
    forall i | 0 <= i < |q| - 1 ensures Hop(ms, q, i) { assert Hop(ms, p, i + 1); }
  }

  lemma PathCons<V>(ms: seq<Migration<V>>, u: int, q: seq<int>, w: int, v: int, limit: int)
    requires IsPath(ms, q, w, v, limit - 1) && HasStep(ms, u, w)
    ensures IsPath(ms, [u] + q, u, v, limit)
  {
    var p := [u] + q;
    forall i | 0 <= i < |p| - 1 ensures Hop(ms, p, i) {
      if i > 0 { assert Hop(ms, q, i - 1); }
    }
  }

  /** A path that steps onto its target ends there. */
  lemma TargetIsLast<V>(ms: seq<Migration<V>>, p: seq<int>, u: int, v: int, limit: int)
    requires Upward(ms) && IsPath(ms, p, u, v, limit)
    ensures p[1] == v <==> |p| == 2
    ensures u < v
  {
    if |p| > 2 { PathAscends(ms, p, 1, |p| - 1); }
    PathAscends(ms, p, 0, |p| - 1);
  }

  ghost predicate ListsPathsBy<V>(ms: seq<Migration<V>>, ps: seq<seq<int>>, next: int, v: int, target: int,
                                  budget: int) {
    && NoRepeats(ps)
    && forall p :: p in ps <==> IsPath(ms, p, v, target, budget) && p[1] == next
  }

  lemma {:induction false} PathsByExact<V>(ms: seq<Migration<V>>, next: int, v: int, target: int, budget: int)
    requires Upward(ms) && budget > 0 && HasStep(ms, v, next)
    ensures ListsPathsBy(ms, PathsBy(ms, next, v, target, budget), next, v, target, budget)
    decreases budget, 0, 0
  {
    var ps := PathsBy(ms, next, v, target, budget);
    if next == target {
      assert IsPath(ms, [v, target], v, target, budget) by { assert Hop(ms, [v, target], 0); }
      forall p | IsPath(ms, p, v, target, budget) && p[1] == next
        ensures p in ps
      {
        TargetIsLast(ms, p, v, target, budget);
        assert p == [v, target];
      }
    } else {
      var qs := PathsFrom(ms, next, target, budget - 1);
      PathsFromExact(ms, next, target, budget - 1);
      PrefixedMembers([v], qs);
      forall p | IsPath(ms, p, v, target, budget) && p[1] == next
        ensures p in ps
      {
        TargetIsLast(ms, p, v, target, budget);
        PathTail(ms, p, v, target, budget);
      }
      forall p | p in ps
        ensures IsPath(ms, p, v, target, budget) && p[1] == next
      {
        var q :| q in qs && p == [v] + q;
        PathCons(ms, v, q, next, target, budget);
      }
    }
  }

  lemma PrefixedMembers(prefix: seq<int>, ps: seq<seq<int>>)
    ensures forall p :: p in Prefixed(prefix, ps) <==> exists q :: q in ps && p == prefix + q
    ensures NoRepeats(ps) ==> NoRepeats(Prefixed(prefix, ps))
  {
    var r := Prefixed(prefix, ps);
    forall q | q in ps ensures prefix + q in r {
      var i :| 0 <= i < |ps| && ps[i] == q;
      assert r[i] == prefix + q;
    }
    forall i, j | 0 <= i < j < |r| && r[i] == r[j] ensures ps[i] == ps[j] {
      assert r[i][|prefix|..] == ps[i] && r[j][|prefix|..] == ps[j];
    }
  }

  ghost predicate ListsPathsVia<V>(ms: seq<Migration<V>>, ps: seq<seq<int>>, steps: seq<Migration<V>>, v: int,
                                   target: int, budget: int) {
    && NoRepeats(ps)
    && forall p :: p in ps <==>
         IsPath(ms, p, v, target, budget) && exists i :: 0 <= i < |steps| && steps[i].toVersion == p[1]
  }

  lemma {:induction false} PathsViaExact<V>(ms: seq<Migration<V>>, steps: seq<Migration<V>>, v: int, target: int,
                                            budget: int)
    requires Upward(ms) && budget > 0
    requires forall i | 0 <= i < |steps| :: HasStep(ms, v, steps[i].toVersion)
    requires forall i, j | 0 <= i < j < |steps| :: steps[i].toVersion != steps[j].toVersion
    ensures ListsPathsVia(ms, PathsVia(ms, steps, v, target, budget), steps, v, target, budget)
    decreases budget, 0, |steps|
  {
    if steps != [] {
      var k := |steps| - 1;
      var front, last := steps[..k], steps[k].toVersion;
      PathsViaExact(ms, front, v, target, budget);
      PathsByExact(ms, last, v, target, budget);
      ViaAppend(ms, PathsVia(ms, front, v, target, budget), PathsBy(ms, last, v, target, budget), steps, v, target,
                budget);
    }
  }

  lemma ViaAppend<V>(ms: seq<Migration<V>>, a: seq<seq<int>>, b: seq<seq<int>>, steps: seq<Migration<V>>, v: int,
                     target: int, budget: int)
    requires steps != []
    requires forall i, j | 0 <= i < j < |steps| :: steps[i].toVersion != steps[j].toVersion
    requires ListsPathsVia(ms, a, steps[..|steps| - 1], v, target, budget)
    requires ListsPathsBy(ms, b, steps[|steps| - 1].toVersion, v, target, budget)
    ensures ListsPathsVia(ms, a + b, steps, v, target, budget)
  {
    var k := |steps| - 1;
    forall p | p in a ensures p !in b {
      var i :| 0 <= i < k && steps[..k][i].toVersion == p[1];
      assert steps[i].toVersion != steps[k].toVersion;
    }
    forall i, j | 0 <= i < j < |a + b| ensures (a + b)[i] != (a + b)[j] {
      if i < |a| <= j { assert (a + b)[i] in a && (a + b)[j] in b; }
    }
    forall p | IsPath(ms, p, v, target, budget) && |p| > 1 && exists i :: 0 <= i < |steps| && steps[i].toVersion == p[1]
      ensures p in a + b
    {
      var i :| 0 <= i < |steps| && steps[i].toVersion == p[1];
      if i < k { assert steps[..k][i].toVersion == p[1]; }
    }
    forall p | p in a + b
      ensures exists i :: 0 <= i < |steps| && steps[i].toVersion == p[1]
    {
      if p in a {
        var i :| 0 <= i < k && steps[..k][i].toVersion == p[1];
        assert steps[i].toVersion == p[1];
      } else {
        assert steps[k].toVersion == p[1];
      }
    }
  }

  /** The search is complete and lists nothing twice. */
  lemma {:induction false} PathsFromExact<V>(ms: seq<Migration<V>>, v: int, target: int, budget: int)
    requires Upward(ms)
    ensures NoRepeats(PathsFrom(ms, v, target, budget))
    ensures forall p :: p in PathsFrom(ms, v, target, budget) <==> IsPath(ms, p, v, target, budget)
    decreases budget, 1, 0
  {
    if budget > 0 {
      var steps := Outgoing(ms, v);
      OutgoingDistinct(ms, v);
      forall i | 0 <= i < |steps| ensures HasStep(ms, v, steps[i].toVersion) { }
      PathsViaExact(ms, steps, v, target, budget);
      forall p | IsPath(ms, p, v, target, budget)
        ensures exists i :: 0 <= i < |steps| && steps[i].toVersion == p[1]
      {
        assert Hop(ms, p, 0);
        var j :| 0 <= j < |ms| && ms[j].fromVersion == v && ms[j].toVersion == p[1];
        OutgoingComplete(ms, v);
        var i :| 0 <= i < |steps| && steps[i] == ms[j];
      }
    }
  }
}

/** Text keys: `from->to` for an edge, versions joined by `->` for a path. */
module VersionKeys {
  import opened Decimal

  predicate NoArrow(s: string) {
    forall i | 0 <= i < |s| :: s[i] != '>'
  }

  lemma ArrowSplits(a: string, b: string, c: string, d: string)
    requires NoArrow(a) && NoArrow(c) && a + "->" + b == c + "->" + d
    ensures a == c && b == d
  {
    var x, y := a + "->" + b, c + "->" + d;
    assert x[|a| + 1] == '>' && y[|c| + 1] == '>';
    assert x[..|a|] == a && y[..|c|] == c;
    assert x[|a| + 2..] == b && y[|c| + 2..] == d;
  }

  function EdgeKey(from: int, to: int): string {
    IntText(from) + "->" + IntText(to)
  }

  lemma EdgeKeyInjective(a: int, b: int, c: int, d: int)
    requires EdgeKey(a, b) == EdgeKey(c, d)
    ensures a == c && b == d
  {
    ArrowSplits(IntText(a), IntText(b), IntText(c), IntText(d));
    IntTextInjective(a, c);
    IntTextInjective(b, d);
  }

  /** `path.join("->")` */
  function PathKey(p: seq<int>): string {
    if p == [] then "" else if |p| == 1 then IntText(p[0]) else IntText(p[0]) + "->" + PathKey(p[1..])
  }

  lemma PathKeyHasArrow(p: seq<int>)
    requires |p| > 1
    ensures !NoArrow(PathKey(p))
  {
    assert PathKey(p)[|IntText(p[0])| + 1] == '>';
  }

  lemma {:induction false} PathKeyInjective(p: seq<int>, q: seq<int>)
    requires PathKey(p) == PathKey(q)
    ensures p == q
    decreases |p| + |q|, |p|
  {
    if |p| > |q| {
      PathKeyInjective(q, p);
    } else if |p| == 0 {
      assert |q| > 0 ==> |PathKey(q)| > 0;
    } else if |q| == 1 {
      IntTextInjective(p[0], q[0]);
    } else if |p| == 1 {
      PathKeyHasArrow(q);
      assert NoArrow(PathKey(p));
      assert false;
    } else {
      ArrowSplits(IntText(p[0]), PathKey(p[1..]), IntText(q[0]), PathKey(q[1..]));
      IntTextInjective(p[0], q[0]);
      PathKeyInjective(p[1..], q[1..]);
      assert p == [p[0]] + p[1..] && q == [q[0]] + q[1..];
    }
  }
}

module PayloadMigrations {
  import opened Wrappers
  import opened MigrationGraph
  import opened VersionKeys

  datatype Failure =
    | SelfMigration(version: int)
    | Duplicate(fromVersion: int, toVersion: int)
    | Downgrade(fromVersion: int, toVersion: int)
    | Cyclic(version: int)
    | MissingPath
    | Ambiguous(paths: seq<seq<int>>)
    | MissingEdge(fromVersion: int, toVersion: int)
    | ExecutedTwice(fromVersion: int, toVersion: int)
    | StepFailed(fromVersion: int, toVersion: int)

  datatype Result<+T> = Ok(value: T) | Err(error: Failure)

  /** What the two searches share between their recursive calls. */
  class Search {
    var visited: set<int>
    var path: seq<int>
    var allPaths: seq<seq<int>>

    constructor ()
      ensures visited == {} && path == [] && allPaths == []
    {
      visited, path, allPaths := {}, [], [];
    }
  }

  ghost predicate Hops<V>(ms: seq<Migration<V>>, p: seq<int>) {
    forall i | 0 <= i < |p| - 1 :: Hop(ms, p, i)
  }

  ghost predicate ListsAgree<V>(ms: seq<Migration<V>>, adjacency: map<int, seq<Migration<V>>>) {
    forall v :: (if v in adjacency then adjacency[v] else []) == Outgoing(ms, v)
  }

  ghost predicate EdgesAgree<V>(ms: seq<Migration<V>>, edges: map<string, Migration<V>>) {
    forall u, v :: EdgeKey(u, v) in edges <==> HasStep(ms, u, v)
  }

  lemma HopsTail<V>(ms: seq<Migration<V>>, p: seq<int>)
    requires Hops(ms, p) && |p| >= 2
    ensures HasStep(ms, p[0], p[1]) && Hops(ms, p[1..])
  {
    assert Hop(ms, p, 0);
    forall i | 0 <= i < |p[1..]| - 1 ensures Hop(ms, p[1..], i) { assert Hop(ms, p, i + 1); }
  }

  /** The step registered for one hop. */
  ghost function StepOf<V>(ms: seq<Migration<V>>, u: int, v: int): (m: Migration<V>)
    requires HasStep(ms, u, v)
    ensures m in ms && m.fromVersion == u && m.toVersion == v
  {
    var i :| 0 <= i < |ms| && ms[i].fromVersion == u && ms[i].toVersion == v;
    ms[i]
  }

  lemma StepIsOnly<V>(ms: seq<Migration<V>>, m: Migration<V>)
    requires Upward(ms) && m in ms
    ensures HasStep(ms, m.fromVersion, m.toVersion) && StepOf(ms, m.fromVersion, m.toVersion) == m
  {
    var i :| 0 <= i < |ms| && ms[i] == m;
    var j :| 0 <= j < |ms| && ms[j] == StepOf(ms, m.fromVersion, m.toVersion);
  }

  /** Running the steps along `p` one after another, stopping at the first that throws. */
  ghost function Fold<V>(ms: seq<Migration<V>>, p: seq<int>, value: V): Result<V>
    requires Hops(ms, p)
    decreases |p|
  {
    if |p| < 2 then Ok(value)
    else
      HopsTail(ms, p);
      match StepOf(ms, p[0], p[1]).migrate(value)
      case Threw => Err(StepFailed(p[0], p[1]))
      case Produced(next) => Fold(ms, p[1..], next)
  }

  /** Running steps along a path: each gets what the one before produced, and the last value is the result. */
  lemma {:induction false} FoldIsComposition<V>(ms: seq<Migration<V>>, steps: seq<Migration<V>>, values: seq<V>)
    requires Upward(ms) && steps != [] && Chained(ms, steps) && |values| == |steps| + 1
    requires forall i | 0 <= i < |steps| :: steps[i].migrate(values[i]) == Produced(values[i + 1])
    ensures Hops(ms, Versions(steps)) && Fold(ms, Versions(steps), values[0]) == Ok(values[|steps|])
    decreases |steps|
  {
    StepsHop(ms, steps);
    var p := Versions(steps);
    HopsTail(ms, p);
    StepIsOnly(ms, steps[0]);
    if |steps| > 1 {
      assert Versions(steps[1..]) == p[1..];
      FoldIsComposition(ms, steps[1..], values[1..]);
    } else {
      assert |p[1..]| == 1;
    }
  }

  /** And the first step that throws is the failure. */
  lemma {:induction false} FoldStopsAtThrow<V>(ms: seq<Migration<V>>, steps: seq<Migration<V>>, values: seq<V>, k: nat)
    requires Upward(ms) && k < |steps| && Chained(ms, steps) && |values| == k + 1
    requires forall i | 0 <= i < k :: steps[i].migrate(values[i]) == Produced(values[i + 1])
    requires steps[k].migrate(values[k]) == Threw
    ensures Hops(ms, Versions(steps))
    ensures Fold(ms, Versions(steps), values[0]) == Err(StepFailed(steps[k].fromVersion, steps[k].toVersion))
    decreases |steps|
  {
    StepsHop(ms, steps);
    var p := Versions(steps);
    HopsTail(ms, p);
    StepIsOnly(ms, steps[0]);
    if k > 0 {
      assert Versions(steps[1..]) == p[1..];
      FoldStopsAtThrow(ms, steps[1..], values[1..], k - 1);
    }
  }

  lemma StepsHop<V>(ms: seq<Migration<V>>, steps: seq<Migration<V>>)
    requires steps != [] && Chained(ms, steps)
    ensures Hops(ms, Versions(steps))
  {
    var p := Versions(steps);
    forall i | 0 <= i < |p| - 1 ensures Hop(ms, p, i) {
      assert steps[i] in ms;
      var j :| 0 <= j < |ms| && ms[j] == steps[i];
      assert ms[j].fromVersion == p[i] && ms[j].toVersion == p[i + 1];
    }
  }

  /** `p` is the one bounded path from `u` to `v`. */
  ghost predicate OnlyPath<V>(ms: seq<Migration<V>>, p: seq<int>, u: int, v: int, limit: int) {
    IsPath(ms, p, u, v, limit) && forall q | IsPath(ms, q, u, v, limit) :: q == p
  }

  ghost predicate NoPath<V>(ms: seq<Migration<V>>, u: int, v: int, limit: int) {
    forall p :: !IsPath(ms, p, u, v, limit)
  }

  ghost predicate ManyPaths<V>(ms: seq<Migration<V>>, ps: seq<seq<int>>, u: int, v: int, limit: int) {
    |ps| >= 2 && NoRepeats(ps) && forall p :: p in ps <==> IsPath(ms, p, u, v, limit)
  }

  /** The list of all bounded paths settles the verdict. */
  lemma ListSettles<V>(ms: seq<Migration<V>>, u: int, v: int, limit: int)
    requires Upward(ms)
    ensures var ps := PathsFrom(ms, u, v, limit);
            && NoRepeats(ps)
            && (|ps| == 0 ==> NoPath(ms, u, v, limit))
            && (|ps| == 1 ==> OnlyPath(ms, ps[0], u, v, limit))
            && (|ps| >= 2 ==> ManyPaths(ms, ps, u, v, limit))
  {
    hide IsPath, PathsFrom, Upward;
    PathsFromExact(ms, u, v, limit);
    var ps := PathsFrom(ms, u, v, limit);
    if |ps| == 1 { assert ps[0] in ps; }
  }

  lemma PrefixedByNothing(ps: seq<seq<int>>)
    ensures Prefixed([], ps) == ps
  {
    forall i | 0 <= i < |ps| ensures [] + ps[i] == ps[i] { }
  }

  /** What the first few of the steps out of `v` list. */
  function Listed<V>(ms: seq<Migration<V>>, steps: seq<Migration<V>>, v: int, target: int, budget: int,
                     prefix: seq<int>)
    : seq<seq<int>>
  {
    if budget <= 0 then [] else Prefixed(prefix, PathsVia(ms, steps, v, target, budget))
  }

  lemma PrefixedAppend(prefix: seq<int>, a: seq<seq<int>>, b: seq<seq<int>>)
    ensures Prefixed(prefix, a + b) == Prefixed(prefix, a) + Prefixed(prefix, b)
  {
  }

  lemma PrefixedTwice(prefix: seq<int>, v: int, ps: seq<seq<int>>)
    ensures Prefixed(prefix, Prefixed([v], ps)) == Prefixed(prefix + [v], ps)
  {
    forall i | 0 <= i < |ps| ensures prefix + ([v] + ps[i]) == (prefix + [v]) + ps[i] { }
  }

  ghost predicate Below<V>(ms: seq<Migration<V>>, top: int) {
    forall i | 0 <= i < |ms| :: ms[i].toVersion <= top
  }

  /** A version no step goes above. */
  ghost function Top<V>(ms: seq<Migration<V>>): (top: int)
    ensures Below(ms, top)
  {
    if ms == [] then 0
    else
      var rest, last := Top(ms[..|ms| - 1]), ms[|ms| - 1].toVersion;
      assert forall i | 0 <= i < |ms| - 1 :: ms[..|ms| - 1][i] == ms[i];
      if last > rest then last else rest
  }

  /** Drops later copies; what it is given without copies it returns as it is. */
  method UniquePaths(paths: seq<seq<int>>) returns (unique: seq<seq<int>>)
    ensures NoRepeats(unique)
    ensures forall p :: p in unique <==> p in paths
    ensures NoRepeats(paths) ==> unique == paths
  {
    hide PathKey;
    var seen: set<string> := {};
    unique := [];
    var i := 0;
    while i < |paths|
      invariant 0 <= i <= |paths|
      invariant NoRepeats(unique)
      invariant forall p :: p in unique <==> p in paths[..i]
      invariant forall p :: PathKey(p) in seen <==> p in unique
      invariant NoRepeats(paths) ==> unique == paths[..i]
    {
      var path := paths[i];
      var key := PathKey(path);
      assert paths[..i + 1] == paths[..i] + [path];
      if key !in seen {
        forall p | PathKey(p) == key ensures p == path { PathKeyInjective(p, path); }
        seen := seen + {key};
        unique := unique + [path];
      } else {
        assert path in paths[..i];
      }
      i := i + 1;
    }
    assert paths[..i] == paths;
  }

  lemma ListedNone<V>(ms: seq<Migration<V>>, steps: seq<Migration<V>>, v: int, target: int, budget: int,
                      prefix: seq<int>)
    ensures Listed(ms, steps[..0], v, target, budget, prefix) == []
  {
  }

  lemma ListedAll<V>(ms: seq<Migration<V>>, v: int, target: int, budget: int, prefix: seq<int>)
    ensures Listed(ms, Outgoing(ms, v), v, target, budget, prefix) == Prefixed(prefix, PathsFrom(ms, v, target, budget))
  {
  }

  lemma ListedNext<V>(ms: seq<Migration<V>>, steps: seq<Migration<V>>, i: nat, v: int, target: int, budget: int,
                      prefix: seq<int>)
    requires i < |steps|
    ensures Listed(ms, steps[..i + 1], v, target, budget, prefix) ==
            Listed(ms, steps[..i], v, target, budget, prefix) +
            if budget <= 0 then []
            else if steps[i].toVersion == target then [prefix + [v] + [target]]
            else Prefixed(prefix + [v], PathsFrom(ms, steps[i].toVersion, target, budget - 1))
  {
    if budget > 0 {
      var next := steps[i].toVersion;
      assert steps[..i + 1][..i] == steps[..i];
      PrefixedAppend(prefix, PathsVia(ms, steps[..i], v, target, budget), PathsBy(ms, next, v, target, budget));
      if next == target {
        assert Prefixed(prefix, [[v, target]]) == [prefix + [v] + [target]] by {
          assert prefix + [v, target] == prefix + [v] + [target];
        }
      } else {
        PrefixedTwice(prefix, v, PathsFrom(ms, next, target, budget - 1));
      }
    }
  }

  class PayloadMigrationRegistry<!V> {
    var migrations: seq<Migration<V>>
    var adjacency: map<int, seq<Migration<V>>>
    var registeredEdges: map<string, Migration<V>>
    const maxPathLength: int

    ghost predicate Valid()
      reads this
    {
      && Upward(migrations)
      && ListsAgree(migrations, adjacency)
      && EdgesAgree(migrations, registeredEdges)
    }

    constructor (maxPathLength: int := 50)
      ensures Valid() && migrations == [] && this.maxPathLength == maxPathLength
    {
      migrations, adjacency, registeredEdges := [], map[], map[];
      this.maxPathLength := maxPathLength;
    }

    /** `adjacency.get(v) ?? []` */
    function Successors(v: int): (r: seq<Migration<V>>)
      requires Valid()
      reads this
      ensures r == Outgoing(migrations, v)
      ensures forall i | 0 <= i < |r| :: r[i] in migrations && r[i].fromVersion == v < r[i].toVersion
    {
      assert (if v in adjacency then adjacency[v] else []) == Outgoing(migrations, v);
      if v in adjacency then adjacency[v] else []
    }

    /** Accepts exactly the upward steps whose two ends are not joined yet. */
    method Register(m: Migration<V>) returns (r: Result<()>)
      requires Valid()
      modifies this
      ensures Valid()
      ensures r.Ok? <==> m.fromVersion < m.toVersion && !HasStep(old(migrations), m.fromVersion, m.toVersion)
      ensures migrations == if r.Ok? then old(migrations) + [m] else old(migrations)
      ensures r.Err? ==> r.error == if m.fromVersion == m.toVersion then SelfMigration(m.fromVersion)
                                    else if HasStep(old(migrations), m.fromVersion, m.toVersion)
                                    then Duplicate(m.fromVersion, m.toVersion)
                                    else Downgrade(m.fromVersion, m.toVersion)
    {
      hide Upward, HasStep, Outgoing, EdgeKey, ListsAgree;
      if m.fromVersion == m.toVersion {
        return Err(SelfMigration(m.fromVersion));
      }
      var edgeKey := EdgeKey(m.fromVersion, m.toVersion);
      if edgeKey in registeredEdges {
        return Err(Duplicate(m.fromVersion, m.toVersion));
      }
      if m.toVersion < m.fromVersion {
        return Err(Downgrade(m.fromVersion, m.toVersion));
      }
      UpwardAppend(migrations, m);
      ListsAppend(migrations, adjacency, m);
      EdgesAppend(migrations, registeredEdges, m);
      migrations := migrations + [m];
      registeredEdges := registeredEdges[edgeKey := m];
      var list := if m.fromVersion in adjacency then adjacency[m.fromVersion] else [];
      adjacency := adjacency[m.fromVersion := list + [m]];
      return Ok(());
    }

    static lemma UpwardAppend(ms: seq<Migration<V>>, m: Migration<V>)
      requires Upward(ms) && m.fromVersion < m.toVersion && !HasStep(ms, m.fromVersion, m.toVersion)
      ensures Upward(ms + [m])
    {
    }

    static lemma ListsAppend(ms: seq<Migration<V>>, adjacency: map<int, seq<Migration<V>>>, m: Migration<V>)
      requires ListsAgree(ms, adjacency)
      ensures var list := if m.fromVersion in adjacency then adjacency[m.fromVersion] else [];
              ListsAgree(ms + [m], adjacency[m.fromVersion := list + [m]])
    {
      assert (ms + [m])[..|ms|] == ms;
      assert Outgoing(ms, m.fromVersion) == if m.fromVersion in adjacency then adjacency[m.fromVersion] else [];
    }

    static lemma EdgesAppend(ms: seq<Migration<V>>, edges: map<string, Migration<V>>, m: Migration<V>)
      requires EdgesAgree(ms, edges)
      ensures EdgesAgree(ms + [m], edges[EdgeKey(m.fromVersion, m.toVersion) := m])
    {
      hide HasStep, EdgeKey;
      forall u, v
        ensures EdgeKey(u, v) in edges[EdgeKey(m.fromVersion, m.toVersion) := m] <==> HasStep(ms + [m], u, v)
      {
        HasStepAppend(ms, m, u, v);
        if EdgeKey(u, v) == EdgeKey(m.fromVersion, m.toVersion) {
          EdgeKeyInjective(u, v, m.fromVersion, m.toVersion);
        }
      }
    }

    static lemma HasStepAppend(ms: seq<Migration<V>>, m: Migration<V>, u: int, v: int)
      ensures HasStep(ms + [m], u, v) <==> HasStep(ms, u, v) || (u == m.fromVersion && v == m.toVersion)
    {
      assert (ms + [m])[|ms|] == m;
      if HasStep(ms, u, v) {
        var i :| 0 <= i < |ms| && ms[i].fromVersion == u && ms[i].toVersion == v;
        assert (ms + [m])[i] == ms[i];
      }
    }

    /** The cycle scan never reports: its stack stays below the node it stands on, and every step goes up. */
    method DetectCycles() returns (cyclic: Option<int>)
      requires Valid()
      ensures cyclic.None?
    {
      var search := new Search();
      var allVersions := adjacency.Keys +
        set v, i | v in adjacency && 0 <= i < |adjacency[v]| :: adjacency[v][i].toVersion;
      ghost var top := Top(migrations);
      while allVersions != {}
        invariant search.path == []
        decreases allVersions
      {
        var version := AnyOf(allVersions);
        allVersions := allVersions - {version};
        if version !in search.visited {
          cyclic := CycleDfs(search, version, top);
          if cyclic.Some? { return; }
        }
      }
      cyclic := None;
    }

    /** `search.path` is the stack of the scan. */
    method CycleDfs(search: Search, node: int, ghost top: int) returns (cyclic: Option<int>)
      requires Valid()
      requires Below(migrations, top)
      requires forall v | v in search.path :: v < node
      modifies search
      ensures cyclic.None? && search.path == old(search.path) && old(search.visited) + {node} <= search.visited
      decreases top - node
    {
      search.visited := search.visited + {node};
      search.path := search.path + [node];
      ghost var stack := search.path;
      var outgoing := Successors(node);
      var i := 0;
      while i < |outgoing|
        invariant 0 <= i <= |outgoing|
        invariant search.path == stack && old(search.visited) + {node} <= search.visited
      {
        var next := outgoing[i].toVersion;
        if next in search.path {
          return Some(next);
        }
        if next !in search.visited {
          cyclic := CycleDfs(search, next, top);
        }
        i := i + 1;
      }
      search.path := search.path[..|search.path| - 1];
      cyclic := None;
    }

    /** Lists, in order, every bounded path on from `current`, and leaves its stacks as it found them. */
    method Dfs(search: Search, current: int, depth: nat, target: int)
      requires Valid()
      requires forall v | v in search.visited :: v < current
      modifies search
      ensures search.visited == old(search.visited) && search.path == old(search.path)
      ensures search.allPaths ==
              old(search.allPaths) +
              Prefixed(old(search.path), PathsFrom(migrations, current, target, maxPathLength - depth))
      decreases maxPathLength - depth
    {
      hide Listed, PathsFrom, PathsVia, PathsBy, Prefixed, Valid;
      ghost var before, budget := search.path, maxPathLength - depth;
      search.visited := search.visited + {current};
      search.path := search.path + [current];
      ghost var visited := search.visited;
      var outgoing := Successors(current);
      ListedNone(migrations, outgoing, current, target, budget, before);
      ListedAll(migrations, current, target, budget, before);
      var i := 0;
      while i < |outgoing|
        invariant 0 <= i <= |outgoing|
        invariant search.visited == visited && search.path == before + [current]
        invariant search.allPaths ==
                  old(search.allPaths) + Listed(migrations, outgoing[..i], current, target, budget, before)
      {
        var next := outgoing[i].toVersion;
        ListedNext(migrations, outgoing, i, current, target, budget, before);
        if next == target {
          if depth < maxPathLength {
            search.allPaths := search.allPaths + [search.path + [next]];
          }
        } else if next !in search.visited && depth < maxPathLength {
          Dfs(search, next, depth + 1, target);
        }
        i := i + 1;
      }
      assert outgoing[..i] == outgoing;
      search.path := search.path[..|search.path| - 1];
      search.visited := search.visited - {current};
    }

    /** A path exactly when there is one and only one; none and several are told apart. */
    method FindPath(fromVersion: int, toVersion: int) returns (r: Result<seq<int>>)
      requires Valid()
      ensures fromVersion == toVersion ==> r == Ok([])
      ensures fromVersion != toVersion ==>
                match r
                case Ok(p) => OnlyPath(migrations, p, fromVersion, toVersion, maxPathLength)
                case Err(MissingPath) => NoPath(migrations, fromVersion, toVersion, maxPathLength)
                case Err(Ambiguous(ps)) => ManyPaths(migrations, ps, fromVersion, toVersion, maxPathLength)
                case _ => false
    {
      hide PathsFrom, OnlyPath, NoPath, ManyPaths, IsPath, Upward, Outgoing, Prefixed;
      if fromVersion == toVersion {
        return Ok([]);
      }
      var cyclic := DetectCycles();
      match cyclic {
        case Some(version) => return Err(Cyclic(version));
        case None =>
      }
      var search := new Search();
      Dfs(search, fromVersion, 0, toVersion);
      var allPaths := search.allPaths;
      ListSettles(migrations, fromVersion, toVersion, maxPathLength);
      PrefixedByNothing(PathsFrom(migrations, fromVersion, toVersion, maxPathLength));
      if |allPaths| == 0 {
        return Err(MissingPath);
      }
      var uniquePaths := UniquePaths(allPaths);
      assert uniquePaths == PathsFrom(migrations, fromVersion, toVersion, maxPathLength);
      if |uniquePaths| > 1 {
        return Err(Ambiguous(uniquePaths));
      }
      return Ok(uniquePaths[0]);
    }

    static lemma OnlyPathHops(ms: seq<Migration<V>>, p: seq<int>, u: int, v: int, limit: int)
      requires Upward(ms) && OnlyPath(ms, p, u, v, limit)
      ensures Hops(ms, p) && |p| >= 2
      ensures forall i, j | 0 <= i < j < |p| :: p[i] < p[j]
    {
      forall i, j | 0 <= i < j < |p| ensures p[i] < p[j] { PathAscends(ms, p, i, j); }
    }

    static lemma FoldStep(ms: seq<Migration<V>>, p: seq<int>, m: Migration<V>, value: V)
      requires Upward(ms) && Hops(ms, p) && |p| >= 2
      requires m in ms && m.fromVersion == p[0] && m.toVersion == p[1]
      ensures Hops(ms, p[1..])
      ensures Fold(ms, p, value) == match m.migrate(value)
                                    case Threw => Err(StepFailed(p[0], p[1]))
                                    case Produced(next) => Fold(ms, p[1..], next)
    {
      HopsTail(ms, p);
      StepIsOnly(ms, m);
    }

    /** `outgoing.find((m) => m.toVersion === to)` */
    method FindStep(from: int, to: int) returns (found: Option<Migration<V>>)
      requires Valid()
      ensures found.None? ==> !HasStep(migrations, from, to)
      ensures found.Some? ==>
                found.value in migrations && found.value.fromVersion == from && found.value.toVersion == to
    {
      var outgoing := Successors(from);
      for j := 0 to |outgoing|
        invariant forall k | 0 <= k < j :: outgoing[k].toVersion != to
      {
        if outgoing[j].toVersion == to {
          return Some(outgoing[j]);
        }
      }
      OutgoingComplete(migrations, from);
      return None;
    }

    /** Runs the steps of the only path, and fails as the search does when there is no such path. */
    method Migrate(input: V, fromVersion: int, toVersion: int) returns (r: Result<V>)
      requires Valid()
      ensures fromVersion == toVersion ==> r == Ok(input)
      ensures fromVersion != toVersion ==>
                || (r == Err(MissingPath) && NoPath(migrations, fromVersion, toVersion, maxPathLength))
                || (r.Err? && r.error.Ambiguous? &&
                    ManyPaths(migrations, r.error.paths, fromVersion, toVersion, maxPathLength))
                || exists p :: OnlyPath(migrations, p, fromVersion, toVersion, maxPathLength) &&
                               Hops(migrations, p) && r == Fold(migrations, p, input)
    {
      if fromVersion == toVersion {
        return Ok(input);
      }
      hide Upward, OnlyPath, NoPath, ManyPaths, Outgoing, Fold;
      var plan := FindPath(fromVersion, toVersion);
      if plan.Err? {
        return Err(plan.error);
      }
      var path, current := plan.value, input;
      OnlyPathHops(migrations, path, fromVersion, toVersion, maxPathLength);
      var executed: set<(int, int)> := {};
      var i := 0;
      while i < |path| - 1
        invariant 0 <= i <= |path| - 1
        invariant Hops(migrations, path[i..])
        invariant Fold(migrations, path, input) == Fold(migrations, path[i..], current)
        invariant forall e | e in executed :: e.1 <= path[i]
      {
        var segmentFrom, segmentTo := path[i], path[i + 1];
        HopsTail(migrations, path[i..]);
        assert path[i..][0] == segmentFrom && path[i..][1] == segmentTo;
        assert path[i..][1..] == path[i + 1..];
        var found := FindStep(segmentFrom, segmentTo);
        if found.None? {
          return Err(MissingEdge(segmentFrom, segmentTo));
        }
        FoldStep(migrations, path[i..], found.value, current);
        if (segmentFrom, segmentTo) in executed {
          return Err(ExecutedTwice(segmentFrom, segmentTo));
        }
        executed := executed + {(segmentFrom, segmentTo)};
        match found.value.migrate(current) {
          case Threw => return Err(StepFailed(segmentFrom, segmentTo));
          case Produced(next) => current := next;
        }
        i := i + 1;
      }
      return Ok(current);
    }
  }
}
