/** The role graph: who inherits from whom, along which walks. */
module RoleGraph {
  datatype RoleNode = RoleNode(permissions: seq<string>, inherits: seq<string>)

  type Roles = map<string, RoleNode>

  predicate Edge(roles: Roles, u: string, v: string) {
    u in roles && v in roles[u].inherits
  }

  ghost predicate IsWalk(roles: Roles, w: seq<string>) {
    w != [] && forall i | 0 <= i < |w| - 1 :: Hop(roles, w, i)
  }

  ghost predicate Hop(roles: Roles, w: seq<string>, i: nat)
    requires i + 1 < |w|
  {
    Edge(roles, w[i], w[i + 1])
  }

  ghost predicate IsCycle(roles: Roles, w: seq<string>) {
    |w| >= 2 && IsWalk(roles, w) && w[0] == w[|w| - 1]
  }

  ghost predicate Reachable(roles: Roles, a: string, b: string) {
    exists w :: IsWalk(roles, w) && w[0] == a && w[|w| - 1] == b
  }

  ghost predicate ClosedUnder(roles: Roles, s: set<string>) {
    forall u, v | u in s && Edge(roles, u, v) :: v in s
  }

  /** `s` contains every name the graph mentions. */
  ghost predicate Covers(roles: Roles, s: set<string>) {
    roles.Keys <= s && forall u, v | Edge(roles, u, v) :: v in s
  }

  /** Fully explored: nothing leads out, and no cycle starts inside. */
  ghost predicate Explored(roles: Roles, s: set<string>) {
    ClosedUnder(roles, s) && forall w | IsCycle(roles, w) :: w[0] !in s
  }

  lemma {:induction false} WalkStays(roles: Roles, s: set<string>, w: seq<string>, i: nat)
    requires ClosedUnder(roles, s) && IsWalk(roles, w) && i < |w| && w[0] in s
    ensures w[i] in s
  {
    if i > 0 {
      WalkStays(roles, s, w, i - 1);
      assert Hop(roles, w, i - 1);
    }
  }

  /** A node whose successors are all explored can be added, unless it is one of them. */
  lemma ExploredGrows(roles: Roles, s: set<string>, u: string)
    requires Explored(roles, s) && u !in s
    requires forall v | Edge(roles, u, v) :: v in s
    ensures Explored(roles, s + {u})
  {
    forall w | IsCycle(roles, w)
      ensures w[0] !in s + {u}
    {
      if w[0] == u {
        assert Hop(roles, w, 0);
        var tail := w[1..];
        forall i | 0 <= i < |tail| - 1 ensures Hop(roles, tail, i) { assert Hop(roles, w, i + 1); }
        WalkStays(roles, s, tail, |tail| - 1);
      }
    }
  }

  lemma WalkExtends(roles: Roles, w: seq<string>, v: string)
    requires IsWalk(roles, w) && Edge(roles, w[|w| - 1], v)
    ensures IsWalk(roles, w + [v])
  {
    forall i | 0 <= i < |w| ensures Hop(roles, w + [v], i) {
      if i < |w| - 1 { assert Hop(roles, w, i); }
    }
  }

  lemma WalkSuffix(roles: Roles, w: seq<string>, i: nat)
    requires IsWalk(roles, w) && i < |w|
    ensures IsWalk(roles, w[i..])
  {
    var s := w[i..];
    forall j | 0 <= j < |s| - 1 ensures Hop(roles, s, j) { assert Hop(roles, w, i + j); }
  }

  lemma ReachableSelf(roles: Roles, a: string)
    ensures Reachable(roles, a, a)
  {
    assert IsWalk(roles, [a]);
  }

  lemma ReachableHop(roles: Roles, a: string, u: string, v: string)
    requires Reachable(roles, a, u) && Edge(roles, u, v)
    ensures Reachable(roles, a, v)
  {
    var w :| IsWalk(roles, w) && w[0] == a && w[|w| - 1] == u;
    WalkExtends(roles, w, v);
    assert (w + [v])[0] == a;
  }

  lemma ReachableTrans(roles: Roles, a: string, b: string, c: string)
    requires Reachable(roles, a, b) && Reachable(roles, b, c)
    ensures Reachable(roles, a, c)
  {
    var w :| IsWalk(roles, w) && w[0] == b && w[|w| - 1] == c;
    ReachableAlong(roles, a, w, |w| - 1);
  }

  lemma {:induction false} ReachableAlong(roles: Roles, a: string, w: seq<string>, i: nat)
    requires IsWalk(roles, w) && i < |w| && Reachable(roles, a, w[0])
    ensures Reachable(roles, a, w[i])
  {
    hide Reachable, Edge;
    if i > 0 {
      ReachableAlong(roles, a, w, i - 1);
      assert Hop(roles, w, i - 1);
      ReachableHop(roles, a, w[i - 1], w[i]);
    }
  }

  /** A closed set around `a`, all of it reachable from `a`, is exactly what `a` reaches. */
  lemma ClosedIsReachable(roles: Roles, a: string, s: set<string>)
    requires a in s && ClosedUnder(roles, s) && forall b | b in s :: Reachable(roles, a, b)
    ensures forall b :: b in s <==> Reachable(roles, a, b)
  {
    forall b | Reachable(roles, a, b)
      ensures b in s
    {
      var w :| IsWalk(roles, w) && w[0] == a && w[|w| - 1] == b;
      WalkStays(roles, s, w, |w| - 1);
    }
  }

  /** A revisited node on the current walk closes a cycle. */
  lemma RevisitIsCycle(roles: Roles, path: seq<string>, i: nat, v: string)
    requires i < |path| && path[i] == v && IsWalk(roles, path + [v])
    ensures IsCycle(roles, path[i..] + [v])
  {
    WalkSuffix(roles, path + [v], i);
    assert (path + [v])[i..] == path[i..] + [v];
  }
}

module RoleInheritance {
  import opened Trimming
  import opened Wrappers
  import opened RoleGraph

  /** A mutable set of names, shared along a recursion. */
  class Names {
    var members: set<string>

    constructor ()
      ensures members == {}
    {
      members := {};
    }

    method Add(name: string)
      modifies this
      ensures members == old(members) + {name}
    {
      members := members + {name};
    }

    method Delete(name: string)
      modifies this
      ensures members == old(members) - {name}
    {
      members := members - {name};
    }
  }

  function Elements(s: seq<string>): set<string> {
    set x | x in s
  }

  predicate NoRepeats(s: seq<string>) {
    forall i, j | 0 <= i < j < |s| :: s[i] != s[j]
  }

  function IndexOf(s: seq<string>, x: string): (i: nat)
    requires x in s
    ensures i < |s| && s[i] == x
  {
    if s[0] == x then 0 else IndexOf(s[1..], x) + 1
  }

  /** Depth-first search for a cycle; `path` is the walk from the root of the search to `startRoleId`. */
  method DetectCycle(roles: Roles, startRoleId: string, visited: Names, path: seq<string>, ghost universe: set<string>)
    returns (cycle: Option<seq<string>>)
    requires Covers(roles, universe) && startRoleId in universe
    requires visited.members <= universe && Elements(path) <= visited.members
    requires IsWalk(roles, path + [startRoleId])
    requires Explored(roles, visited.members - Elements(path))
    modifies visited
    ensures old(visited.members) <= visited.members <= universe
    ensures cycle.Some? ==> IsCycle(roles, cycle.value)
    ensures cycle.None? ==> startRoleId in visited.members && startRoleId !in path
    ensures cycle.None? ==> Explored(roles, visited.members - Elements(path))
    decreases universe - visited.members
  {
    hide Explored, IsWalk, IsCycle;
    if startRoleId in path {
      var cycleStart := IndexOf(path, startRoleId);
      RevisitIsCycle(roles, path, cycleStart, startRoleId);
      return Some(path[cycleStart..] + [startRoleId]);
    }
    if startRoleId in visited.members {
      return None;
    }
    ghost var before := visited.members;
    visited.Add(startRoleId);
    var newPath := path + [startRoleId];
    assert Elements(newPath) == Elements(path) + {startRoleId};
    assert visited.members - Elements(newPath) == before - Elements(path);
    if startRoleId !in roles {
      ExploredGrows(roles, before - Elements(path), startRoleId);
      assert visited.members - Elements(path) == before - Elements(path) + {startRoleId};
      return None;
    }
    var inherits := roles[startRoleId].inherits;
    for i := 0 to |inherits|
      invariant before + {startRoleId} <= visited.members <= universe
      invariant Explored(roles, visited.members - Elements(newPath))
      invariant forall j | 0 <= j < i :: inherits[j] in visited.members - Elements(newPath)
    {
      assert Edge(roles, startRoleId, inherits[i]);
      WalkExtends(roles, newPath, inherits[i]);
      cycle := DetectCycle(roles, inherits[i], visited, newPath, universe);
      if cycle.Some? {
        return;
      }
    }
    ExploredGrows(roles, visited.members - Elements(newPath), startRoleId);
    assert visited.members - Elements(path) == visited.members - Elements(newPath) + {startRoleId};
    return None;
  }

  /** Every name the graph mentions. */
  ghost function Universe(roles: Roles): (s: set<string>)
    ensures Covers(roles, s)
  {
    roles.Keys + set u, v | u in roles && v in roles[u].inherits :: v
  }

  /** Reports a cycle exactly when the graph has one. */
  method CheckGraphCycles(roles: Roles) returns (cycle: Option<seq<string>>)
    ensures cycle.Some? ==> IsCycle(roles, cycle.value)
    ensures cycle.None? ==> forall w :: !IsCycle(roles, w)
  {
    var rest := roles.Keys;
    while rest != {}
      invariant rest <= roles.Keys
      invariant forall w | IsCycle(roles, w) :: w[0] !in roles.Keys - rest
      decreases rest
    {
      var roleId :| roleId in rest;
      var visited := new Names();
      assert Explored(roles, {}) && [] + [roleId] == [roleId] && Elements([]) == {};
      assert visited.members - Elements([]) == {};
      cycle := DetectCycle(roles, roleId, visited, [], Universe(roles));
      if cycle.Some? {
        return;
      }
      assert visited.members - Elements([]) == visited.members;
      rest := rest - {roleId};
    }
    assert forall w | IsCycle(roles, w) :: Hop(roles, w, 0);
    return None;
  }

  ghost predicate Acyclic(roles: Roles) {
    forall w :: !IsCycle(roles, w)
  }

  datatype Error =
    | GraphSizeLimitExceeded(limit: int)
    | CycleDetected(cycle: seq<string>)
    | InvalidRole(roleId: string)
    | DepthLimitExceeded(roleId: string)
    | MissingRole(roleId: string, missing: string)

  datatype ResolveResult = ResolveResult(roleId: string, effectivePermissions: set<string>,
                                         inheritancePath: seq<string>)

  datatype Outcome<+T> = Done(value: T) | Failed(error: Error)

  ghost predicate Grants(roles: Roles, nodes: set<string>, permission: string) {
    exists u :: u in nodes && u in roles && permission in roles[u].permissions
  }

  /** What one finished visit adds: reachable roles only, with all their successors. */
  ghost predicate Visited(roles: Roles, root: string, before: set<string>, after: set<string>) {
    && before <= after
    && (forall u | u in after - before :: u in roles && Reachable(roles, root, u))
    && (forall u, v | u in after - before && Edge(roles, u, v) :: v in after)
  }

  /** The sets a resolution updates have grown by exactly the new roles and their permissions. */
  ghost predicate Collected(roles: Roles, added: set<string>, before: set<string>, after: set<string>) {
    forall p :: p in after <==> p in before || Grants(roles, added, p)
  }

  lemma VisitedHop(roles: Roles, root: string, child: string, before: set<string>, mid: set<string>, after: set<string>)
    requires Visited(roles, child, mid, after) && Edge(roles, root, child)
    ensures forall u | u in after - mid :: u in roles && Reachable(roles, root, u)
  {
    ReachableSelf(roles, root);
    ReachableHop(roles, root, root, child);
    forall u | u in after - mid
      ensures Reachable(roles, root, u)
    {
      ReachableTrans(roles, root, child, u);
    }
  }

  /** A chain of at most `depth` steps of inheritance leads from `root` to `u`. */
  ghost predicate WithinDepth(roles: Roles, root: string, u: string, depth: int) {
    exists w :: IsWalk(roles, w) && w[0] == root && w[|w| - 1] == u && |w| - 1 <= depth
  }

  /** Collects permissions over the roles not visited yet. `path` is the walk whose roles are on the stack. */
  method ResolveRecursive(roles: Roles, roleId: string, permissions: Names, visited: Names, recursionStack: Names,
                          currentDepth: nat, maxDepth: int, ghost path: seq<string>, ghost universe: set<string>)
    returns (r: Outcome<()>)
    requires Acyclic(roles) && Covers(roles, universe) && roleId in universe && visited.members <= universe
    requires permissions != visited && permissions != recursionStack && visited != recursionStack
    requires recursionStack.members == Elements(path) <= visited.members
    requires IsWalk(roles, path + [roleId]) && currentDepth == |path|
    modifies permissions, visited, recursionStack
    ensures visited.members <= universe
    ensures r.Done? ==> roleId in visited.members && recursionStack.members == old(recursionStack.members)
    ensures r.Done? ==> Visited(roles, roleId, old(visited.members), visited.members)
    ensures r.Done? ==>
              Collected(roles, visited.members - old(visited.members), old(permissions.members), permissions.members)
    ensures r.Done? ==> forall u | u in visited.members - old(visited.members) ::
              WithinDepth(roles, (path + [roleId])[0], u, maxDepth)
    ensures r.Failed? ==> r.error.MissingRole? || r.error.DepthLimitExceeded?
    ensures r.Failed? && r.error.MissingRole? ==>
              Reachable(roles, roleId, r.error.missing) && r.error.missing !in roles
    ensures r.Failed? && r.error.DepthLimitExceeded? ==>
              exists w :: IsWalk(roles, w) && |w| - 1 > maxDepth && w[0] == (path + [roleId])[0]
    decreases universe - visited.members
  {
    hide IsWalk, Reachable, Grants, Collected, WithinDepth;
    if currentDepth > maxDepth {
      assert |path + [roleId]| - 1 > maxDepth;
      return Failed(DepthLimitExceeded(roleId));
    }
    if roleId in recursionStack.members {
      RevisitIsCycle(roles, path, IndexOf(path, roleId), roleId);
      assert false;
    }
    if roleId in visited.members {
      assert visited.members - visited.members == {};
      NothingCollected(roles, permissions.members);
      return Done(());
    }
    if roleId !in roles {
      ReachableSelf(roles, roleId);
      return Failed(MissingRole(roleId, roleId));
    }
    ghost var before, granted := visited.members, permissions.members;
    recursionStack.Add(roleId);
    visited.Add(roleId);
    ghost var newPath := path + [roleId];
    assert Elements(newPath) == Elements(path) + {roleId};
    var direct := roles[roleId].permissions;
    for i := 0 to |direct|
      invariant permissions.members == granted + Elements(direct[..i])
      invariant visited.members == before + {roleId} && recursionStack.members == Elements(newPath)
    {
      permissions.Add(direct[i]);
      assert Elements(direct[..i + 1]) == Elements(direct[..i]) + {direct[i]};
    }
    assert direct[..|direct|] == direct;
    DirectCollected(roles, roleId, granted);
    ReachableSelf(roles, roleId);
    assert visited.members - before == {roleId};
    ghost var root := newPath[0];
    assert WithinDepth(roles, root, roleId, maxDepth) by { WalkWithin(roles, newPath, maxDepth); }
    var inherits := roles[roleId].inherits;
    for i := 0 to |inherits|
      invariant before + {roleId} <= visited.members <= universe
      invariant recursionStack.members == Elements(newPath)
      invariant forall j | 0 <= j < i :: inherits[j] in visited.members
      invariant forall u | u in visited.members - before :: u in roles && Reachable(roles, roleId, u)
      invariant forall u, v | u in visited.members - before && u != roleId && Edge(roles, u, v) :: v in visited.members
      invariant Collected(roles, visited.members - before, granted, permissions.members)
      invariant forall u | u in visited.members - before :: WithinDepth(roles, root, u, maxDepth)
    {
      var parentId := inherits[i];
      assert Edge(roles, roleId, parentId);
      if parentId !in roles {
        ReachableHop(roles, roleId, roleId, parentId);
        return Failed(MissingRole(roleId, parentId));
      }
      WalkExtends(roles, newPath, parentId);
      assert (newPath + [parentId])[0] == root;
      ghost var mid, held := visited.members, permissions.members;
      r := ResolveRecursive(roles, parentId, permissions, visited, recursionStack, currentDepth + 1, maxDepth, newPath,
                            universe);
      if r.Failed? {
        if r.error.MissingRole? {
          ReachableHop(roles, roleId, roleId, parentId);
          ReachableTrans(roles, roleId, parentId, r.error.missing);
        }
        return;
      }
      VisitedHop(roles, roleId, parentId, before, mid, visited.members);
      CollectedTwice(roles, mid - before, visited.members - mid, granted, held, permissions.members);
      assert visited.members - before == (mid - before) + (visited.members - mid);
    }
    recursionStack.Delete(roleId);
    assert recursionStack.members == Elements(path);
    return Done(());
  }

  lemma WalkWithin(roles: Roles, w: seq<string>, depth: int)
    requires IsWalk(roles, w) && |w| - 1 <= depth
    ensures WithinDepth(roles, w[0], w[|w| - 1], depth)
  {
  }

  lemma NothingCollected(roles: Roles, before: set<string>)
    ensures Collected(roles, {}, before, before)
  {
  }

  lemma DirectCollected(roles: Roles, u: string, before: set<string>)
    requires u in roles
    ensures Collected(roles, {u}, before, before + Elements(roles[u].permissions))
  {
  }

  lemma CollectedTwice(roles: Roles, a: set<string>, b: set<string>, p0: set<string>, p1: set<string>, p2: set<string>)
    requires Collected(roles, a, p0, p1) && Collected(roles, b, p1, p2)
    ensures Collected(roles, a + b, p0, p2)
  {
    forall p ensures Grants(roles, a + b, p) <==> Grants(roles, a, p) || Grants(roles, b, p) { }
  }

  // --- depth-first order ---

  /** The first of these roles that exists and is not listed yet. */
  function FirstUnlisted(roles: Roles, inherits: seq<string>, listed: set<string>): Option<string> {
    if inherits == [] then None
    else if inherits[0] in roles && inherits[0] !in listed then Some(inherits[0])
    else FirstUnlisted(roles, inherits[1..], listed)
  }

  /** Where depth-first listing goes on: from the latest role that inherits one not listed yet, to the first such. */
  function NextListed(roles: Roles, done: seq<string>, listed: set<string>): Option<string> {
    if done == [] then None
    else
      var last := done[|done| - 1];
      if last in roles && FirstUnlisted(roles, roles[last].inherits, listed).Some?
      then FirstUnlisted(roles, roles[last].inherits, listed)
      else NextListed(roles, done[..|done| - 1], listed)
  }

  ghost predicate ListedInTurn(roles: Roles, path: seq<string>, from: nat) {
    forall i | from <= i < |path| && i > 0 :: NextListed(roles, path[..i], Elements(path[..i])) == Some(path[i])
  }

  /** Nothing these roles inherit is left to list. */
  ghost predicate Finished(roles: Roles, nodes: seq<string>, listed: set<string>) {
    forall u | u in nodes :: u in roles && FirstUnlisted(roles, roles[u].inherits, listed).None?
  }

  lemma {:induction false} FirstUnlistedIs(roles: Roles, inherits: seq<string>, listed: set<string>, i: nat)
    requires i <= |inherits| && forall j | 0 <= j < i && inherits[j] in roles :: inherits[j] in listed
    ensures i == |inherits| ==> FirstUnlisted(roles, inherits, listed).None?
    ensures i < |inherits| && inherits[i] in roles && inherits[i] !in listed ==>
              FirstUnlisted(roles, inherits, listed) == Some(inherits[i])
  {
    if i > 0 {
      assert inherits[0] in roles ==> inherits[0] in listed;
      FirstUnlistedIs(roles, inherits[1..], listed, i - 1);
    }
  }

  lemma {:induction false} FirstUnlistedMore(roles: Roles, inherits: seq<string>, listed: set<string>,
                                           more: set<string>)
    requires listed <= more && FirstUnlisted(roles, inherits, listed).None?
    ensures FirstUnlisted(roles, inherits, more).None?
  {
    if inherits != [] { FirstUnlistedMore(roles, inherits[1..], listed, more); }
  }

  lemma FinishedMore(roles: Roles, nodes: seq<string>, listed: set<string>, more: set<string>)
    requires listed <= more && Finished(roles, nodes, listed)
    ensures Finished(roles, nodes, more)
  {
    forall u | u in nodes ensures FirstUnlisted(roles, roles[u].inherits, more).None? {
      FirstUnlistedMore(roles, roles[u].inherits, listed, more);
    }
  }

  lemma {:induction false} NextSkipsFinished(roles: Roles, front: seq<string>, nodes: seq<string>, listed: set<string>)
    requires Finished(roles, nodes, listed)
    ensures NextListed(roles, front + nodes, listed) == NextListed(roles, front, listed)
    decreases |nodes|
  {
    if nodes == [] {
      assert front + nodes == front;
    } else {
      var k := |nodes| - 1;
      assert nodes[k] in nodes;
      assert (front + nodes)[..|front| + k] == front + nodes[..k];
      NextSkipsFinished(roles, front, nodes[..k], listed);
    }
  }

  lemma InTurnExtends(roles: Roles, full: seq<string>, more: seq<string>, from: nat)
    requires from <= |full| && ListedInTurn(roles, full, from) && ListedInTurn(roles, full + more, |full|)
    ensures ListedInTurn(roles, full + more, from)
  {
    var all := full + more;
    forall i | from <= i < |all| && i > 0 ensures NextListed(roles, all[..i], Elements(all[..i])) == Some(all[i]) {
      if i < |full| { assert all[..i] == full[..i]; }
    }
  }

  /** The list goes depth-first: every role follows by the rule above, and at the end none is left. */
  ghost predicate DepthFirst(roles: Roles, path: seq<string>) {
    && (forall i | 0 < i < |path| :: NextListed(roles, path[..i], Elements(path[..i])) == Some(path[i]))
    && NextListed(roles, path, Elements(path)) == None
  }

  lemma FinishedIsDepthFirst(roles: Roles, path: seq<string>)
    requires ListedInTurn(roles, path, 0) && Finished(roles, path, Elements(path))
    ensures DepthFirst(roles, path)
  {
    assert [] + path == path;
    NextSkipsFinished(roles, [], path, Elements(path));
  }

  /** The roles first met below `roleId`, in depth-first preorder; `prefix` lists those met before. */
  method BuildInheritancePath(roles: Roles, roleId: string, visited: Names, ghost prefix: seq<string>,
                              ghost universe: set<string>)
    returns (path: seq<string>)
    requires Elements(prefix) == visited.members
    requires prefix != [] && roleId in roles && roleId !in visited.members ==>
               NextListed(roles, prefix, Elements(prefix)) == Some(roleId)
    requires Covers(roles, universe) && roleId in universe && visited.members <= universe
    modifies visited
    ensures old(visited.members) <= visited.members <= universe
    ensures NoRepeats(path) && Elements(path) == visited.members - old(visited.members)
    ensures roleId in roles && roleId !in old(visited.members) ==> path != [] && path[0] == roleId
    ensures roleId in roles ==> roleId in visited.members
    ensures forall u | u in path :: u in roles && Reachable(roles, roleId, u)
    ensures forall u, v | u in path && Edge(roles, u, v) && v in roles :: v in visited.members
    ensures Elements(prefix + path) == visited.members
    ensures ListedInTurn(roles, prefix + path, |prefix|) && Finished(roles, path, visited.members)
    decreases universe - visited.members
  {
    hide NextListed, FirstUnlisted, ListedInTurn, Finished, Reachable, Elements, NoRepeats;
    NothingListed(roles, prefix, visited.members);
    if roleId in visited.members {
      return [];
    }
    if roleId !in roles {
      return [];
    }
    ghost var before := visited.members;
    visited.Add(roleId);
    path := [roleId];
    OneListed(roles, prefix, roleId, visited.members);
    ReachableSelf(roles, roleId);
    var inherits := roles[roleId].inherits;
    for i := 0 to |inherits|
      invariant before + {roleId} <= visited.members <= universe
      invariant path != [] && path[0] == roleId && NoRepeats(path) && Elements(path) == visited.members - before
      invariant forall u | u in path :: u in roles && Reachable(roles, roleId, u)
      invariant forall j | 0 <= j < i && inherits[j] in roles :: inherits[j] in visited.members
      invariant forall u, v | u in path && u != roleId && Edge(roles, u, v) && v in roles :: v in visited.members
      invariant Elements(prefix + path) == visited.members && ListedInTurn(roles, prefix + path, |prefix|)
      invariant Finished(roles, path[1..], visited.members)
    {
      assert Edge(roles, roleId, inherits[i]);
      ghost var mid, front := visited.members, path;
      ghost var full := prefix + front;
      ParentIsNext(roles, prefix, front, mid, i);
      var parentPath := BuildInheritancePath(roles, inherits[i], visited, full, universe);
      ParentListed(roles, prefix, front, parentPath, mid, visited.members);
      ReachableHop(roles, roleId, roleId, inherits[i]);
      forall u | u in parentPath ensures Reachable(roles, roleId, u) { ReachableTrans(roles, roleId, inherits[i], u); }
      path := path + parentPath;
      AppendDistinct(front, parentPath);
      ElementsConcat(front, parentPath);
    }
    AllListed(roles, path, visited.members);
  }

  lemma ElementsConcat(a: seq<string>, b: seq<string>)
    ensures Elements(a + b) == Elements(a) + Elements(b)
  {
  }

  lemma NothingListed(roles: Roles, prefix: seq<string>, listed: set<string>)
    ensures prefix + [] == prefix && ListedInTurn(roles, prefix, |prefix|) && Finished(roles, [], listed)
    ensures Elements([]) == {} && NoRepeats([])
  {
  }

  lemma OneListed(roles: Roles, prefix: seq<string>, u: string, listed: set<string>)
    requires prefix != [] ==> NextListed(roles, prefix, Elements(prefix)) == Some(u)
    ensures ListedInTurn(roles, prefix + [u], |prefix|) && Finished(roles, [u][1..], listed)
    ensures Elements(prefix + [u]) == Elements(prefix) + {u} && Elements([u]) == {u} && NoRepeats([u])
  {
    hide NextListed;
    assert (prefix + [u])[..|prefix|] == prefix;
  }

  /** Once some of its parents are done with, a role's next is the next parent. */
  lemma ParentIsNext(roles: Roles, prefix: seq<string>, front: seq<string>, listed: set<string>, i: nat)
    requires front != [] && front[0] in roles && Finished(roles, front[1..], listed)
    requires i < |roles[front[0]].inherits|
    requires forall j | 0 <= j < i && roles[front[0]].inherits[j] in roles :: roles[front[0]].inherits[j] in listed
    ensures var parent := roles[front[0]].inherits[i];
            parent in roles && parent !in listed ==> NextListed(roles, prefix + front, listed) == Some(parent)
  {
    hide NextListed, FirstUnlisted, Finished;
    var inherits := roles[front[0]].inherits;
    assert prefix + front == (prefix + [front[0]]) + front[1..];
    NextSkipsFinished(roles, prefix + [front[0]], front[1..], listed);
    FirstUnlistedIs(roles, inherits, listed, i);
    if inherits[i] in roles && inherits[i] !in listed { NextFromLast(roles, prefix, front[0], listed); }
  }

  lemma ParentListed(roles: Roles, prefix: seq<string>, front: seq<string>, more: seq<string>, mid: set<string>,
                     after: set<string>)
    requires front != [] && mid <= after && Finished(roles, front[1..], mid) && Finished(roles, more, after)
    requires ListedInTurn(roles, prefix + front, |prefix|)
    requires ListedInTurn(roles, prefix + front + more, |prefix + front|)
    ensures prefix + front + more == prefix + (front + more)
    ensures ListedInTurn(roles, prefix + (front + more), |prefix|) && Finished(roles, (front + more)[1..], after)
  {
    hide NextListed, FirstUnlisted, ListedInTurn;
    InTurnExtends(roles, prefix + front, more, |prefix|);
    assert prefix + front + more == prefix + (front + more);
    FinishedMore(roles, front[1..], mid, after);
    assert (front + more)[1..] == front[1..] + more;
  }

  lemma AllListed(roles: Roles, path: seq<string>, listed: set<string>)
    requires path != [] && path[0] in roles && Finished(roles, path[1..], listed)
    requires forall u | u in roles[path[0]].inherits && u in roles :: u in listed
    ensures Finished(roles, path, listed)
  {
    hide NextListed, FirstUnlisted;
    FirstUnlistedIs(roles, roles[path[0]].inherits, listed, |roles[path[0]].inherits|);
    assert path == [path[0]] + path[1..];
  }

  lemma NextFromLast(roles: Roles, prefix: seq<string>, u: string, listed: set<string>)
    requires u in roles && FirstUnlisted(roles, roles[u].inherits, listed).Some?
    ensures NextListed(roles, prefix + [u], listed) == FirstUnlisted(roles, roles[u].inherits, listed)
  {
  }

  lemma AppendDistinct(a: seq<string>, b: seq<string>)
    requires NoRepeats(a) && NoRepeats(b) && Elements(a) !! Elements(b)
    ensures NoRepeats(a + b)
  {
    var c := a + b;
    forall i, j | 0 <= i < j < |c| ensures c[i] != c[j] {
      if i < |a| <= j { assert c[i] in Elements(a) && c[j] in Elements(b); }
    }
  }

  /** A result is exact: the permissions of exactly the reachable roles, and each of those roles listed once,
      the target first. */
  ghost predicate IsResolution(roles: Roles, roleId: string, r: ResolveResult) {
    && r.roleId == roleId
    && (forall p :: p in r.effectivePermissions <==>
          exists u :: Reachable(roles, roleId, u) && u in roles && p in roles[u].permissions)
    && r.inheritancePath != [] && r.inheritancePath[0] == roleId && NoRepeats(r.inheritancePath)
    && DepthFirst(roles, r.inheritancePath)
    && (forall u :: u in r.inheritancePath <==> Reachable(roles, roleId, u))
  }

  /** Every refusal has its cause in the input; without any of these causes resolution succeeds. */
  ghost predicate Justified(e: Error, roles: Roles, roleId: string, maxDepth: int, maxRoles: int,
                            defaultMaxRoles: int) {
    match e
    case GraphSizeLimitExceeded(limit) => |roles| > limit && (limit == maxRoles || limit == defaultMaxRoles)
    case CycleDetected(cycle) => IsCycle(roles, cycle)
    case InvalidRole(id) => (id in roles && Trim(id) == "") || (id == roleId && roleId !in roles)
    case DepthLimitExceeded(_) => exists w :: IsWalk(roles, w) && w[0] == roleId && |w| - 1 > maxDepth
    case MissingRole(_, missing) => Reachable(roles, roleId, missing) && missing !in roles
  }

  ghost predicate WellSized(roles: Roles, maxRoles: int) {
    |roles| <= maxRoles && forall id | id in roles :: Trim(id) != ""
  }

  /** Size and blank ids; that lists are lists of strings the types say. */
  method ValidateRoles(roles: Roles, defaultMaxRoles: int) returns (r: Outcome<()>)
    ensures r.Done? <==> |roles| <= defaultMaxRoles && forall id | id in roles :: Trim(id) != ""
    ensures r.Failed? ==>
              if |roles| > defaultMaxRoles then r.error == GraphSizeLimitExceeded(defaultMaxRoles)
              else r.error.InvalidRole? && r.error.roleId in roles && Trim(r.error.roleId) == ""
  {
    if |roles| > defaultMaxRoles {
      return Failed(GraphSizeLimitExceeded(defaultMaxRoles));
    }
    var rest := roles.Keys;
    while rest != {}
      invariant rest <= roles.Keys && forall id | id in roles.Keys - rest :: Trim(id) != ""
      decreases rest
    {
      var id := AnyOf(rest);
      if Trim(id) == "" {
        return Failed(InvalidRole(id));
      }
      rest := rest - {id};
    }
    return Done(());
  }

  /** Refuses only for a cause that is there, cycles before missing roles and depth; a result is exact. */
  method Resolve(roles: Roles, roleId: string, maxDepth: int, maxRoles: int, defaultMaxRoles: int := 1000)
    returns (r: Outcome<ResolveResult>)
    ensures r.Failed? ==> Justified(r.error, roles, roleId, maxDepth, maxRoles, defaultMaxRoles)
    ensures r.Done? ==> IsResolution(roles, roleId, r.value) && forall u | Reachable(roles, roleId, u) :: u in roles
    ensures r.Done? ==> forall u | Reachable(roles, roleId, u) :: WithinDepth(roles, roleId, u, maxDepth)
    ensures r.Done? ==> |roles| <= maxRoles && WellSized(roles, defaultMaxRoles) && Acyclic(roles) && roleId in roles
    ensures |roles| <= maxRoles && WellSized(roles, defaultMaxRoles) && !Acyclic(roles) ==>
              r.Failed? && r.error.CycleDetected?
  {
    hide IsResolution, WithinDepth;
    if |roles| > maxRoles {
      return Failed(GraphSizeLimitExceeded(maxRoles));
    }
    var valid := ValidateRoles(roles, defaultMaxRoles);
    if valid.Failed? {
      return Failed(valid.error);
    }
    var cycle := CheckGraphCycles(roles);
    if cycle.Some? {
      return Failed(CycleDetected(cycle.value));
    }
    if roleId !in roles {
      return Failed(InvalidRole(roleId));
    }
    r := ResolveAcyclic(roles, roleId, maxDepth);
  }

  /** What is left of the resolution once the graph has been checked. */
  method ResolveAcyclic(roles: Roles, roleId: string, maxDepth: int) returns (r: Outcome<ResolveResult>)
    requires Acyclic(roles) && roleId in roles
    ensures r.Failed? ==> (r.error.MissingRole? || r.error.DepthLimitExceeded?) &&
                          Justified(r.error, roles, roleId, maxDepth, 0, 0)
    ensures r.Done? ==> IsResolution(roles, roleId, r.value) && forall u | Reachable(roles, roleId, u) :: u in roles
    ensures r.Done? ==> forall u | Reachable(roles, roleId, u) :: WithinDepth(roles, roleId, u, maxDepth)
  {
    hide WithinDepth, DepthFirst, ListedInTurn, Finished, NextListed, FirstUnlisted, Grants;
    var effectivePermissions := new Names();
    var visited := new Names();
    var recursionStack := new Names();
    assert [] + [roleId] == [roleId];
    var done := ResolveRecursive(roles, roleId, effectivePermissions, visited, recursionStack, 0, maxDepth, [],
                                 Universe(roles));
    if done.Failed? {
      return Failed(done.error);
    }
    ghost var reached := visited.members;
    assert reached - {} == reached;
    hide Reachable, IsWalk, Collected, IsResolution;
    ClosedIsReachable(roles, roleId, reached);
    var seen := new Names();
    var inheritancePath := BuildInheritancePath(roles, roleId, seen, [], Universe(roles));
    assert [] + inheritancePath == inheritancePath;
    assert seen.members - {} == seen.members == Elements(inheritancePath);
    MakesResolution(roles, roleId, inheritancePath, reached, effectivePermissions.members);
    return Done(ResolveResult(roleId, effectivePermissions.members, inheritancePath));
  }

  lemma MakesResolution(roles: Roles, roleId: string, path: seq<string>, reached: set<string>, permissions: set<string>)
    requires forall b :: b in reached <==> Reachable(roles, roleId, b)
    requires (forall u | u in reached :: u in roles) && Collected(roles, reached, {}, permissions)
    requires path != [] && path[0] == roleId && NoRepeats(path)
    requires forall u | u in path :: u in roles && Reachable(roles, roleId, u)
    requires forall u, v | u in path && Edge(roles, u, v) && v in roles :: v in path
    requires ListedInTurn(roles, path, 0) && Finished(roles, path, Elements(path))
    ensures IsResolution(roles, roleId, ResolveResult(roleId, permissions, path))
  {
    hide Reachable, Edge, Collected, Grants, ListedInTurn, Finished, DepthFirst;
    FinishedIsDepthFirst(roles, path);
    PathIsReached(roles, roleId, path, reached);
    ResolutionPermissions(roles, roleId, reached, permissions);
  }

  lemma PathIsReached(roles: Roles, roleId: string, path: seq<string>, reached: set<string>)
    requires forall b :: b in reached <==> Reachable(roles, roleId, b)
    requires forall u | u in reached :: u in roles
    requires roleId in path && forall u | u in path :: u in roles && Reachable(roles, roleId, u)
    requires forall u, v | u in path && Edge(roles, u, v) && v in roles :: v in path
    ensures forall u :: u in path <==> Reachable(roles, roleId, u)
  {
    var s := Elements(path);
    forall u, v | u in s && Edge(roles, u, v)
      ensures v in s
    {
      ReachableHop(roles, roleId, u, v);
    }
    ClosedIsReachable(roles, roleId, s);
  }

  lemma ResolutionPermissions(roles: Roles, roleId: string, reached: set<string>, permissions: set<string>)
    requires forall b :: b in reached <==> Reachable(roles, roleId, b)
    requires Collected(roles, reached, {}, permissions)
    ensures forall p :: p in permissions <==>
              exists u :: Reachable(roles, roleId, u) && u in roles && p in roles[u].permissions
  {
    forall p
      ensures Grants(roles, reached, p) <==>
                exists u :: Reachable(roles, roleId, u) && u in roles && p in roles[u].permissions
    {
    }
  }
}
