/** Merkle trees over an arbitrary two-argument compression function `h`. */
module MerkleModel {
  import opened Wrappers

  type Byte = bv8
  const HASH_SIZE_BYTES := 32

  type Digest = d: seq<bv8> | |d| == HASH_SIZE_BYTES witness seq(HASH_SIZE_BYTES, _ => 0)

  /** SHA-256 of the concatenation of two digests, and of a leaf. */
  type Compress = (Digest, Digest) -> Digest
  type LeafHash = seq<bv8> -> Digest

  datatype Side = Left | Right

  /** `side` is where the sibling sits. */
  datatype ProofStep = ProofStep(hash: Digest, side: Side)

  /** Two different pairs with the same hash. */
  datatype Collision = Collision(l1: Digest, r1: Digest, l2: Digest, r2: Digest)

  ghost predicate Collides(h: Compress, c: Collision) {
    (c.l1, c.r1) != (c.l2, c.r2) && h(c.l1, c.r1) == h(c.l2, c.r2)
  }

  /** `Math.ceil(n / 2)` */
  function HalfUp(n: nat): nat {
    (n + 1) / 2
  }

  /** The level above: pairs left to right, a lone last node paired with itself. */
  function Parents(h: Compress, level: seq<Digest>): (r: seq<Digest>)
    ensures |r| == HalfUp(|level|)
  {
    seq(HalfUp(|level|), i requires 0 <= i < HalfUp(|level|) =>
      h(level[2 * i], if 2 * i + 1 < |level| then level[2 * i + 1] else level[2 * i]))
  }

  function Root(h: Compress, level: seq<Digest>): Digest
    requires level != []
    decreases |level|
  {
    if |level| == 1 then level[0] else Root(h, Parents(h, level))
  }

  function CeilLog2(n: nat): nat
    requires n > 0
  {
    if n == 1 then 0 else 1 + CeilLog2(HalfUp(n))
  }

  function Pow2(k: nat): (r: nat)
    ensures r >= 1
  {
    if k == 0 then 1 else 2 * Pow2(k - 1)
  }

  lemma {:induction false} CeilLog2Bounds(n: nat)
    requires n > 0
    ensures n <= Pow2(CeilLog2(n)) && (n > 1 ==> Pow2(CeilLog2(n) - 1) < n)
  {
    if n > 1 { CeilLog2Bounds(HalfUp(n)); }
  }

  function SiblingOf(level: seq<Digest>, position: nat): ProofStep
    requires position < |level|
  {
    if position % 2 == 1 then ProofStep(level[position - 1], Left)
    else ProofStep(if position + 1 < |level| then level[position + 1] else level[position], Right)
  }

  /** The siblings on the way from a leaf to the root. */
  function Proof(h: Compress, level: seq<Digest>, position: nat): seq<ProofStep>
    requires position < |level|
    decreases |level|
  {
    if |level| == 1 then []
    else [SiblingOf(level, position)] + Proof(h, Parents(h, level), position / 2)
  }

  function Combine(h: Compress, running: Digest, step: ProofStep): Digest {
    if step.side.Left? then h(step.hash, running) else h(running, step.hash)
  }

  /** What a verifier recomputes. */
  function Fold(h: Compress, running: Digest, proof: seq<ProofStep>): Digest
    decreases proof
  {
    if proof == [] then running else Fold(h, Combine(h, running, proof[0]), proof[1..])
  }

  /** The left and right child of a node, in a level of `n`; a lone last node is both. */
  function RightChild(n: nat, parent: nat): nat {
    if 2 * parent + 1 < n then 2 * parent + 1 else 2 * parent
  }

  lemma HeightAbove(n: nat)
    requires n > 0
    ensures CeilLog2(n) == if n == 1 then 0 else CeilLog2(HalfUp(n)) + 1
  {
  }

  lemma HalfFits(n: nat, position: nat)
    requires position < n
    ensures position / 2 < HalfUp(n) && (n > 1 ==> HalfUp(n) < n)
  {
  }

  lemma ChildOfHalf(n: nat, position: nat)
    requires position < n
    ensures if position % 2 == 1 then RightChild(n, position / 2) == position && 2 * (position / 2) == position - 1
            else 2 * (position / 2) == position &&
                 RightChild(n, position / 2) == if position + 1 < n then position + 1 else position
  {
  }

  lemma ParentIs(h: Compress, level: seq<Digest>, parent: nat)
    requires parent < HalfUp(|level|)
    ensures 2 * parent < |level| && RightChild(|level|, parent) < |level|
    ensures Parents(h, level)[parent] == h(level[2 * parent], level[RightChild(|level|, parent)])
  {
  }

  /** Completeness: the proof of every leaf folds to the root, in ceil(log2 n) steps. */
  lemma {:induction false} ProofFoldsToRoot(h: Compress, level: seq<Digest>, position: nat)
    requires position < |level|
    ensures |Proof(h, level, position)| == CeilLog2(|level|)
    ensures Fold(h, level[position], Proof(h, level, position)) == Root(h, level)
    decreases |level|
  {
    HeightAbove(|level|);
    if |level| > 1 {
      HalfFits(|level|, position);
      ParentIs(h, level, position / 2);
      ChildOfHalf(|level|, position);
      hide CeilLog2, HalfUp, RightChild, Parents;
      var up := Parents(h, level);
      assert Combine(h, level[position], SiblingOf(level, position)) == up[position / 2];
      ProofFoldsToRoot(h, up, position / 2);
    }
  }

  /** Two proofs agree on shape when they have the same length and the same sides. */
  predicate SameShape(p: seq<ProofStep>, q: seq<ProofStep>) {
    |p| == |q| && forall i | 0 <= i < |p| :: p[i].side == q[i].side
  }

  /** Binding of proofs: two same-shape proofs to one root carry one leaf and one list of siblings,
      or they hand over a collision. */
  lemma {:induction false} FoldBinds(h: Compress, a: Digest, p: seq<ProofStep>, b: Digest, q: seq<ProofStep>)
    returns (c: Option<Collision>)
    requires SameShape(p, q) && Fold(h, a, p) == Fold(h, b, q)
    ensures c.None? ==> a == b && p == q
    ensures c.Some? ==> Collides(h, c.value)
    decreases |p|
  {
    if p == [] {
      return None;
    }
    var a1, b1 := Combine(h, a, p[0]), Combine(h, b, q[0]);
    assert SameShape(p[1..], q[1..]);
    c := FoldBinds(h, a1, p[1..], b1, q[1..]);
    if c.None? {
      assert p == [p[0]] + p[1..] && q == [q[0]] + q[1..];
      if a != b || p[0].hash != q[0].hash {
        c := Some(if p[0].side.Left? then Collision(p[0].hash, a, q[0].hash, b)
                  else Collision(a, p[0].hash, b, q[0].hash));
      }
    }
  }

  lemma {:induction false} ProofShape(h: Compress, xs: seq<Digest>, ys: seq<Digest>, position: nat)
    requires |xs| == |ys| && position < |xs|
    ensures SameShape(Proof(h, xs, position), Proof(h, ys, position))
    decreases |xs|
  {
    if |xs| > 1 { ProofShape(h, Parents(h, xs), Parents(h, ys), position / 2); }
  }

  /** Soundness: whatever leaf and siblings a verifier accepts at this position, they are the tree's own,
      or they hand over a collision. */
  lemma AcceptedLeafIsTheLeaf(h: Compress, level: seq<Digest>, position: nat, leaf: Digest, proof: seq<ProofStep>)
    returns (c: Option<Collision>)
    requires position < |level| && SameShape(proof, Proof(h, level, position))
    requires Fold(h, leaf, proof) == Root(h, level)
    ensures c.None? ==> leaf == level[position] && proof == Proof(h, level, position)
    ensures c.Some? ==> Collides(h, c.value)
  {
    ProofFoldsToRoot(h, level, position);
    c := FoldBinds(h, leaf, proof, level[position], Proof(h, level, position));
  }

  // --- accepted proofs of any length and sides ---

  /** The level `j` steps above. */
  function Up(h: Compress, level: seq<Digest>, j: nat): seq<Digest>
    decreases j
  {
    if j == 0 then level else Up(h, Parents(h, level), j - 1)
  }

  /** Where in a level of `n` the sides lead, from the root down. */
  function Position(n: nat, proof: seq<ProofStep>): (i: nat)
    requires n > 0 && |proof| == CeilLog2(n)
    ensures i < n
  {
    if n == 1 then 0
    else
      var parent := Position(HalfUp(n), proof[1..]);
      if proof[0].side.Right? then 2 * parent else RightChild(n, parent)
  }

  /** The tree's own siblings along those sides. */
  function Siblings(h: Compress, level: seq<Digest>, proof: seq<ProofStep>): (r: seq<ProofStep>)
    requires level != [] && |proof| == CeilLog2(|level|)
    ensures |r| == |proof|
    decreases |proof|
  {
    if |level| == 1 then []
    else
      var parent := Position(HalfUp(|level|), proof[1..]);
      [ProofStep(level[if proof[0].side.Right? then RightChild(|level|, parent) else 2 * parent], proof[0].side)] +
      Siblings(h, Parents(h, level), proof[1..])
  }

  /** The digest is the node of this level that the sides lead to, and the hashes are its siblings. */
  predicate Leads(h: Compress, level: seq<Digest>, digest: Digest, proof: seq<ProofStep>)
    requires level != [] && |proof| == CeilLog2(|level|)
  {
    digest == level[Position(|level|, proof)] && proof == Siblings(h, level, proof)
  }

  /**
   * What an accepted proof shows: a full one a leaf, a shorter one the node its sides lead to that many steps below the
   * root, and a longer one a digest that hashes down to a leaf.
   */
  predicate Authentic(h: Compress, level: seq<Digest>, digest: Digest, proof: seq<ProofStep>)
    requires level != []
  {
    var height, d := CeilLog2(|level|), |proof|;
    if d <= height then
      UpHeight(h, level, height - d);
      Leads(h, Up(h, level, height - d), digest, proof)
    else Leads(h, level, Fold(h, digest, proof[..d - height]), proof[d - height..])
  }

  lemma {:induction false} UpHeight(h: Compress, level: seq<Digest>, j: nat)
    requires level != [] && j <= CeilLog2(|level|)
    ensures Up(h, level, j) != [] && CeilLog2(|Up(h, level, j)|) == CeilLog2(|level|) - j
    ensures Root(h, Up(h, level, j)) == Root(h, level)
    decreases j
  {
    hide Parents, Root, CeilLog2, HalfUp;
    HeightAbove(|level|);
    if j > 0 {
      RootUnfolds(h, level);
      HalfFits(|level|, 0);
      UpHeight(h, Parents(h, level), j - 1);
    }
  }

  lemma {:induction false} FoldConcat(h: Compress, a: Digest, p: seq<ProofStep>, q: seq<ProofStep>)
    ensures Fold(h, a, p + q) == Fold(h, Fold(h, a, p), q)
    decreases |p|
  {
    if p == [] {
      assert p + q == q;
    } else {
      assert (p + q)[0] == p[0] && (p + q)[1..] == p[1..] + q;
      FoldConcat(h, Combine(h, a, p[0]), p[1..], q);
    }
  }

  /** What the sides lead to in a level hashes with its sibling to what they lead to in the level above. */
  lemma LeadsUp(h: Compress, level: seq<Digest>, digest: Digest, proof: seq<ProofStep>) returns (c: Option<Collision>)
    requires |level| > 1 && |proof| == CeilLog2(|level|)
    requires Leads(h, Parents(h, level), Combine(h, digest, proof[0]), proof[1..])
    ensures c.None? ==> Leads(h, level, digest, proof)
    ensures c.Some? ==> Collides(h, c.value)
  {
    hide CeilLog2, HalfUp;
    HeightAbove(|level|);
    var parent := Position(HalfUp(|level|), proof[1..]);
    ParentIs(h, level, parent);
    hide Parents, RightChild;
    var left, right := level[2 * parent], level[RightChild(|level|, parent)];
    assert proof == [proof[0]] + proof[1..];
    assert Siblings(h, level, proof)[1..] == Siblings(h, Parents(h, level), proof[1..]);
    var other, isLeft := proof[0].hash, proof[0].side.Left?;
    var l, r := if isLeft then other else digest, if isLeft then digest else other;
    assert h(l, r) == h(left, right);
    if (l, r) != (left, right) { return Some(Collision(l, r, left, right)); }
    return None;
  }

  lemma {:induction false} FullProofLeads(h: Compress, level: seq<Digest>, digest: Digest, proof: seq<ProofStep>)
    returns (c: Option<Collision>)
    requires level != [] && |proof| == CeilLog2(|level|) && Fold(h, digest, proof) == Root(h, level)
    ensures c.None? ==> Leads(h, level, digest, proof)
    ensures c.Some? ==> Collides(h, c.value)
    decreases |proof|
  {
    if |level| == 1 { return None; }
    c := FullProofLeads(h, Parents(h, level), Combine(h, digest, proof[0]), proof[1..]);
    if c.None? { c := LeadsUp(h, level, digest, proof); }
  }

  lemma LeadsDown(h: Compress, level: seq<Digest>, digest: Digest, proof: seq<ProofStep>)
    requires |level| > 1 && |proof| == CeilLog2(|level|) && Leads(h, level, digest, proof)
    ensures |proof[1..]| == CeilLog2(HalfUp(|level|))
    ensures Leads(h, Parents(h, level), Combine(h, digest, proof[0]), proof[1..])
  {
    hide CeilLog2, HalfUp;
    HeightAbove(|level|);
    var parent := Position(HalfUp(|level|), proof[1..]);
    ParentIs(h, level, parent);
    hide Parents, RightChild;
    assert proof[0] == Siblings(h, level, proof)[0];
    assert proof[1..] == Siblings(h, level, proof)[1..] == Siblings(h, Parents(h, level), proof[1..]);
  }

  lemma {:induction false} LeadingFoldsToRoot(h: Compress, level: seq<Digest>, digest: Digest, proof: seq<ProofStep>)
    requires level != [] && |proof| == CeilLog2(|level|) && Leads(h, level, digest, proof)
    ensures Fold(h, digest, proof) == Root(h, level)
    decreases |proof|
  {
    if |level| > 1 {
      LeadsDown(h, level, digest, proof);
      hide Leads, Parents;
      LeadingFoldsToRoot(h, Parents(h, level), Combine(h, digest, proof[0]), proof[1..]);
    }
  }

  /** Soundness of any proof: whatever folds to the root is authentic, or hands over a collision. */
  lemma AcceptedIsAuthentic(h: Compress, level: seq<Digest>, digest: Digest, proof: seq<ProofStep>)
    returns (c: Option<Collision>)
    requires level != [] && Fold(h, digest, proof) == Root(h, level)
    ensures c.None? ==> Authentic(h, level, digest, proof)
    ensures c.Some? ==> Collides(h, c.value)
  {
    hide Leads, Up, Fold, Root;
    var height, d := CeilLog2(|level|), |proof|;
    hide CeilLog2;
    if d <= height {
      UpHeight(h, level, height - d);
      c := FullProofLeads(h, Up(h, level, height - d), digest, proof);
    } else {
      var k := d - height;
      assert proof == proof[..k] + proof[k..];
      FoldConcat(h, digest, proof[..k], proof[k..]);
      c := FullProofLeads(h, level, Fold(h, digest, proof[..k]), proof[k..]);
    }
  }

  /** And every authentic proof is accepted. */
  lemma AuthenticIsAccepted(h: Compress, level: seq<Digest>, digest: Digest, proof: seq<ProofStep>)
    requires level != [] && Authentic(h, level, digest, proof)
    ensures Fold(h, digest, proof) == Root(h, level)
  {
    hide Leads, Up, Fold, Root;
    var height, d := CeilLog2(|level|), |proof|;
    hide CeilLog2;
    if d <= height {
      UpHeight(h, level, height - d);
      LeadingFoldsToRoot(h, Up(h, level, height - d), digest, proof);
    } else {
      var k := d - height;
      assert proof == proof[..k] + proof[k..];
      FoldConcat(h, digest, proof[..k], proof[k..]);
      LeadingFoldsToRoot(h, level, Fold(h, digest, proof[..k]), proof[k..]);
    }
  }

  lemma PositionBelow(h: Compress, level: seq<Digest>, position: nat, rest: seq<ProofStep>)
    requires position < |level| && |level| > 1 && |rest| == CeilLog2(HalfUp(|level|))
    requires Position(HalfUp(|level|), rest) == position / 2 && rest == Siblings(h, Parents(h, level), rest)
    ensures var proof := [SiblingOf(level, position)] + rest;
            Position(|level|, proof) == position && proof == Siblings(h, level, proof)
  {
    hide CeilLog2, HalfUp;
    HeightAbove(|level|);
    ChildOfHalf(|level|, position);
    hide RightChild, Parents;
    var step := SiblingOf(level, position);
    assert ([step] + rest)[0] == step && ([step] + rest)[1..] == rest;
  }

  /** The proof of a position leads there. */
  lemma {:induction false} ProofLeads(h: Compress, level: seq<Digest>, position: nat)
    requires position < |level|
    ensures |Proof(h, level, position)| == CeilLog2(|level|)
    ensures Position(|level|, Proof(h, level, position)) == position
    ensures Leads(h, level, level[position], Proof(h, level, position))
    decreases |level|
  {
    HeightAbove(|level|);
    if |level| > 1 {
      HalfFits(|level|, position);
      hide CeilLog2, HalfUp, Parents, Position, Siblings, SiblingOf;
      ProofLeads(h, Parents(h, level), position / 2);
      PositionBelow(h, level, position, Proof(h, Parents(h, level), position / 2));
    }
  }

  /** Binding of trees: lists of one length with one root are one list, or they hand over a collision. */
  lemma {:induction false} RootBinds(h: Compress, xs: seq<Digest>, ys: seq<Digest>) returns (c: Option<Collision>)
    requires |xs| == |ys| > 0 && Root(h, xs) == Root(h, ys)
    ensures c.None? ==> xs == ys
    ensures c.Some? ==> Collides(h, c.value)
    decreases |xs|
  {
    if |xs| == 1 {
      assert xs == [xs[0]] && ys == [ys[0]];
      return None;
    }
    c := RootBinds(h, Parents(h, xs), Parents(h, ys));
    if c.None? {
      c := ParentsBind(h, xs, ys);
    }
  }

  lemma ParentsBind(h: Compress, xs: seq<Digest>, ys: seq<Digest>) returns (c: Option<Collision>)
    requires |xs| == |ys| && Parents(h, xs) == Parents(h, ys)
    ensures c.None? ==> xs == ys
    ensures c.Some? ==> Collides(h, c.value)
  {
    if xs == ys {
      return None;
    }
    var j :| 0 <= j < |xs| && xs[j] != ys[j];
    var i := j / 2;
    assert Parents(h, xs)[i] == Parents(h, ys)[i];
    var k := if 2 * i + 1 < |xs| then 2 * i + 1 else 2 * i;
    assert j == 2 * i || j == k;
    return Some(Collision(xs[2 * i], xs[k], ys[2 * i], ys[k]));
  }

  lemma RootUnfolds(h: Compress, level: seq<Digest>)
    requires |level| > 1
    ensures Root(h, level) == Root(h, Parents(h, level))
  {
  }

  lemma OddTailParents(h: Compress, xs: seq<Digest>, ys: seq<Digest>)
    requires |xs| > 1 && |xs| % 2 == 1 && ys == xs + [xs[|xs| - 1]]
    ensures Parents(h, ys) == Parents(h, xs)
  {
    forall i | 0 <= i < |Parents(h, xs)|
      ensures Parents(h, ys)[i] == Parents(h, xs)[i]
    {
      if 2 * i + 1 < |xs| {
        assert ys[2 * i] == xs[2 * i] && ys[2 * i + 1] == xs[2 * i + 1];
      }
    }
  }

  /** Equal length is needed: repeating an odd level's last node does not change its root. */
  lemma OddTailRepeats(h: Compress, xs: seq<Digest>)
    requires |xs| > 1 && |xs| % 2 == 1
    ensures Root(h, xs + [xs[|xs| - 1]]) == Root(h, xs)
  {
    hide Root, Parents;
    var ys := xs + [xs[|xs| - 1]];
    OddTailParents(h, xs, ys);
    RootUnfolds(h, xs);
    RootUnfolds(h, ys);
  }

  /** One turn of the proof loop. */
  lemma ProofUnfolds(h: Compress, level: seq<Digest>, position: nat, prefix: seq<ProofStep>)
    requires position < |level|
    ensures |level| == 1 ==> Proof(h, level, position) == []
    ensures |level| > 1 ==>
      prefix + Proof(h, level, position) ==
      (prefix + [SiblingOf(level, position)]) + Proof(h, Parents(h, level), position / 2)
  {
    if |level| > 1 {
      var rest := Proof(h, Parents(h, level), position / 2);
      assert prefix + ([SiblingOf(level, position)] + rest) == (prefix + [SiblingOf(level, position)]) + rest;
    }
  }
}

module MerkleTrees {
  import opened Wrappers
  import opened MerkleModel

  datatype Error = EmptyTree | IndexOutOfRange | WrongSize

  datatype Result<+T> = Ok(value: T) | Err(error: Error)

  /** The canonical hash of a caller's leaf; a pre-hashed leaf must already have the size of a digest. */
  function NormalizeLeafHash(leafHash: LeafHash, prehashed: bool, leaf: seq<bv8>): Result<Digest> {
    if prehashed then if |leaf| == HASH_SIZE_BYTES then Ok(leaf) else Err(WrongSize)
    else Ok(leafHash(leaf))
  }

  // --- what verifying says of the caller's bytes ---

  function LeafHashes(leafHash: LeafHash, leaves: seq<seq<bv8>>): (r: seq<Digest>)
    ensures |r| == |leaves| && forall i | 0 <= i < |r| :: r[i] == leafHash(leaves[i])
  {
    seq(|leaves|, i requires 0 <= i < |leaves| => leafHash(leaves[i]))
  }

  /**
   * Leaves that a caller gives as bytes: with the sides of a position, only the bytes given there are accepted, or else
   * the pairs of two nodes collide, or the bytes of two leaves do.
   */
  lemma AcceptedBytesAreTheLeaf(h: Compress, leafHash: LeafHash, leaves: seq<seq<bv8>>, i: nat, x: seq<bv8>,
                                proof: seq<ProofStep>) returns (c: Option<Collision>)
    requires i < |leaves| && SameShape(proof, Proof(h, LeafHashes(leafHash, leaves), i))
    requires Fold(h, leafHash(x), proof) == Root(h, LeafHashes(leafHash, leaves))
    ensures c.Some? ==> Collides(h, c.value)
    ensures c.None? ==> x == leaves[i] || (x != leaves[i] && leafHash(x) == leafHash(leaves[i]))
  {
    c := AcceptedLeafIsTheLeaf(h, LeafHashes(leafHash, leaves), i, leafHash(x), proof);
  }

  /** Leaves given as digests: only the digest given there is accepted, or two nodes collide. */
  lemma AcceptedDigestIsTheLeaf(h: Compress, leaves: seq<Digest>, i: nat, x: Digest, proof: seq<ProofStep>)
    returns (c: Option<Collision>)
    requires i < |leaves| && SameShape(proof, Proof(h, leaves, i)) && Fold(h, x, proof) == Root(h, leaves)
    ensures c.Some? ==> Collides(h, c.value)
    ensures c.None? ==> x == leaves[i]
  {
    c := AcceptedLeafIsTheLeaf(h, leaves, i, x, proof);
  }

  /** The bytes of every leaf are accepted with its proof. */
  lemma OwnBytesAreAccepted(h: Compress, leafHash: LeafHash, leaves: seq<seq<bv8>>, i: nat)
    requires i < |leaves|
    ensures var level := LeafHashes(leafHash, leaves);
            Fold(h, leafHash(leaves[i]), Proof(h, level, i)) == Root(h, level)
  {
    ProofFoldsToRoot(h, LeafHashes(leafHash, leaves), i);
  }

  /** The roots of the smallest trees, spelled out: left before right, and a lone node with itself. */
  lemma SmallRoots(h: Compress, a: Digest, b: Digest, c: Digest)
    ensures Root(h, [a]) == a
    ensures Root(h, [a, b]) == h(a, b)
    ensures Root(h, [a, b, c]) == h(h(a, b), h(c, c))
  {
    assert Parents(h, [a, b]) == [h(a, b)];
    assert Parents(h, [a, b, c]) == [h(a, b), h(c, c)];
    assert Parents(h, [h(a, b), h(c, c)]) == [h(h(a, b), h(c, c))];
    RootUnfolds(h, [a, b, c]);
    RootUnfolds(h, [h(a, b), h(c, c)]);
  }

  ghost predicate Linked(h: Compress, levels: seq<seq<Digest>>, i: nat)
    requires i + 1 < |levels|
  {
    |levels[i]| > 1 && levels[i + 1] == Parents(h, levels[i])
  }

  /** All levels, leaves first. */
  ghost predicate IsLevels(h: Compress, levels: seq<seq<Digest>>) {
    && levels != []
    && (forall i | 0 <= i < |levels| - 1 :: Linked(h, levels, i))
    && |levels[|levels| - 1]| == 1
  }

  lemma LevelAbove(h: Compress, levels: seq<seq<Digest>>, i: nat, position: nat)
    requires IsLevels(h, levels) && i + 1 < |levels| && position < |levels[i]|
    ensures |levels[i]| > 1 && levels[i + 1] == Parents(h, levels[i]) && position / 2 < |levels[i + 1]|
  {
    assert Linked(h, levels, i);
  }

  lemma TopIsSingle(h: Compress, levels: seq<seq<Digest>>)
    requires IsLevels(h, levels)
    ensures |levels[|levels| - 1]| == 1
  {
  }

  /** The sibling read at one level. */
  method SiblingAt(level: seq<Digest>, position: nat) returns (step: ProofStep)
    requires position < |level|
    ensures step == SiblingOf(level, position)
  {
    var isRightNode := position % 2 == 1;
    var siblingIndex := if isRightNode then position - 1 else position + 1;
    var sibling := if siblingIndex < |level| then level[siblingIndex] else level[position];
    step := ProofStep(sibling, if isRightNode then Left else Right);
  }

  method ComputeLevels(h: Compress, leafHashes: seq<Digest>) returns (levels: seq<seq<Digest>>)
    requires leafHashes != []
    ensures IsLevels(h, levels) && levels[0] == leafHashes
  {
    levels := [leafHashes];
    while |levels[|levels| - 1]| > 1
      invariant levels != [] && levels[0] == leafHashes && |levels[|levels| - 1]| > 0
      invariant forall i | 0 <= i < |levels| - 1 :: Linked(h, levels, i)
      decreases |levels[|levels| - 1]|
    {
      var current := levels[|levels| - 1];
      var next: seq<Digest> := [];
      var i := 0;
      while i < |current|
        invariant i <= |current| + 1 && i % 2 == 0 && |next| == i / 2
        invariant |next| <= HalfUp(|current|) && next == Parents(h, current)[..|next|]
      {
        var left := current[i];
        var right := if i + 1 < |current| then current[i + 1] else left;
        next := next + [h(left, right)];
        i := i + 2;
      }
      assert next == Parents(h, current);
      ghost var before := levels;
      levels := levels + [next];
      forall i | 0 <= i < |levels| - 1
        ensures Linked(h, levels, i)
      {
        if i < |before| - 1 {
          assert Linked(h, before, i);
        }
      }
    }
  }

  lemma {:induction false} TopIsRoot(h: Compress, levels: seq<seq<Digest>>)
    requires IsLevels(h, levels)
    ensures levels[0] != [] && levels[|levels| - 1][0] == Root(h, levels[0])
    decreases |levels|
  {
    if |levels| > 1 {
      assert Linked(h, levels, 0);
      var up := levels[1..];
      forall i | 0 <= i < |up| - 1 ensures Linked(h, up, i) {
        assert Linked(h, levels, i + 1);
      }
      TopIsRoot(h, up);
    }
  }

  /** Every leaf normalised, or the first failure. */
  function NormalizeAll(leafHash: LeafHash, prehashed: bool, leaves: seq<seq<bv8>>): (r: Result<seq<Digest>>)
    ensures r.Ok? ==> |r.value| == |leaves|
    ensures r.Ok? ==> forall i | 0 <= i < |leaves| ::
              Ok(r.value[i]) == NormalizeLeafHash(leafHash, prehashed, leaves[i])
    ensures r.Err? ==> r.error == WrongSize
    ensures r.Err? <==> exists i :: 0 <= i < |leaves| && NormalizeLeafHash(leafHash, prehashed, leaves[i]).Err?
    decreases |leaves|
  {
    if leaves == [] then Ok([])
    else
      var first := NormalizeLeafHash(leafHash, prehashed, leaves[0]);
      var rest := NormalizeAll(leafHash, prehashed, leaves[1..]);
      assert forall i | 0 < i < |leaves| :: leaves[i] == leaves[1..][i - 1];
      if first.Err? then Err(first.error)
      else if rest.Err? then
        var j :| 0 <= j < |leaves[1..]| && NormalizeLeafHash(leafHash, prehashed, leaves[1..][j]).Err?;
        assert leaves[j + 1] == leaves[1..][j];
        rest
      else Ok([first.value] + rest.value)
  }

  class MerkleTree {
    const h: Compress
    const leafHash: LeafHash
    const prehashed: bool
    const levels: seq<seq<Digest>>

    ghost predicate Valid() {
      IsLevels(h, levels)
    }

    /** The leaf hashes, in caller order. */
    ghost function Leaves(): (r: seq<Digest>)
      requires Valid()
      ensures r != []
    {
      TopIsRoot(h, levels);
      levels[0]
    }

    constructor (h: Compress, leafHash: LeafHash, leaves: seq<Digest>, prehashed: bool)
      requires leaves != []
      ensures Valid() && Leaves() == leaves
      ensures this.h == h && this.leafHash == leafHash && this.prehashed == prehashed
    {
      this.h := h;
      this.leafHash := leafHash;
      this.prehashed := prehashed;
      var levels := ComputeLevels(h, leaves);
      this.levels := levels;
    }

    /** Building from raw leaves: an empty list is refused first, then any leaf that cannot be normalised. */
    static method Build(h: Compress, leafHash: LeafHash, leaves: seq<seq<bv8>>, prehashed: bool)
      returns (r: Result<MerkleTree>)
      ensures leaves == [] ==> r == Err(EmptyTree)
      ensures leaves != [] ==> (r.Ok? <==> prehashed ==> forall i | 0 <= i < |leaves| :: |leaves[i]| == 32)
      ensures leaves != [] && r.Err? ==> r.error == WrongSize
      ensures r.Ok? ==> fresh(r.value) && r.value.Valid() && r.value.h == h && |r.value.Leaves()| == |leaves|
      ensures r.Ok? && prehashed ==> r.value.Leaves() == leaves
      ensures r.Ok? && !prehashed ==> forall i | 0 <= i < |leaves| :: r.value.Leaves()[i] == leafHash(leaves[i])
    {
      if leaves == [] {
        return Err(EmptyTree);
      }
      var hashes := NormalizeAll(leafHash, prehashed, leaves);
      if hashes.Err? {
        return Err(hashes.error);
      }
      var tree := new MerkleTree(h, leafHash, hashes.value, prehashed);
      return Ok(tree);
    }

    method GetRoot() returns (root: Digest)
      requires Valid()
      ensures root == Root(h, Leaves())
    {
      TopIsRoot(h, levels);
      root := levels[|levels| - 1][0];
    }

    method GetLeafHash(index: int) returns (r: Result<Digest>)
      requires Valid()
      ensures r == if 0 <= index < |Leaves()| then Ok(Leaves()[index]) else Err(IndexOutOfRange)
    {
      if index < 0 || index >= |levels[0]| {
        return Err(IndexOutOfRange);
      }
      return Ok(levels[0][index]);
    }

    method GetProof(index: int) returns (r: Result<seq<ProofStep>>)
      requires Valid()
      ensures r == if 0 <= index < |Leaves()| then Ok(Proof(h, Leaves(), index)) else Err(IndexOutOfRange)
    {
      if index < 0 || index >= |levels[0]| {
        return Err(IndexOutOfRange);
      }
      var proof: seq<ProofStep> := [];
      var position := index;
      var levelIndex := 0;
      hide Proof, Parents, IsLevels, SiblingOf, Linked;
      ghost var whole := Proof(h, levels[0], index);
      while levelIndex < |levels| - 1
        invariant 0 <= levelIndex < |levels| && 0 <= position < |levels[levelIndex]|
        invariant proof + Proof(h, levels[levelIndex], position) == whole
      {
        var level := levels[levelIndex];
        LevelAbove(h, levels, levelIndex, position);
        ProofUnfolds(h, level, position, proof);
        var step := SiblingAt(level, position);
        proof := proof + [step];
        position := position / 2;
        levelIndex := levelIndex + 1;
      }
      TopIsSingle(h, levels);
      ProofUnfolds(h, levels[levelIndex], position, proof);
      assert proof + [] == proof;
      return Ok(proof);
    }

    /** `rawProof` carries hashes of any length; the first wrong size is reported before anything is compared. */
    static method Verify(h: Compress, leafHash: LeafHash, prehashed: bool, root: seq<bv8>, leaf: seq<bv8>,
                         rawProof: seq<(seq<bv8>, Side)>) returns (r: Result<bool>)
      ensures r.Ok? <==> |root| == 32 && (prehashed ==> |leaf| == 32) && WellSized(rawProof)
      ensures r.Err? ==> r.error == WrongSize
      ensures r.Ok? && prehashed ==> (r.value <==> Fold(h, leaf, Parsed(rawProof)) == root)
      ensures r.Ok? && !prehashed ==> (r.value <==> Fold(h, leafHash(leaf), Parsed(rawProof)) == root)
    {
      if |root| != HASH_SIZE_BYTES {
        return Err(WrongSize);
      }
      var normalized := NormalizeLeafHash(leafHash, prehashed, leaf);
      if normalized.Err? {
        return Err(normalized.error);
      }
      var running: Digest := normalized.value;
      var i := 0;
      while i < |rawProof|
        invariant 0 <= i <= |rawProof| && WellSized(rawProof[..i])
        invariant WellSized(rawProof) ==>
          Fold(h, running, Parsed(rawProof)[i..]) == Fold(h, normalized.value, Parsed(rawProof))
      {
        var (hash, side) := rawProof[i];
        if |hash| != HASH_SIZE_BYTES {
          return Err(WrongSize);
        }
        assert WellSized(rawProof) ==> Parsed(rawProof)[i..][1..] == Parsed(rawProof)[i + 1..];
        running := if side.Left? then h(hash, running) else h(running, hash);
        i := i + 1;
      }
      assert rawProof[..i] == rawProof;
      return Ok(running == root);
    }

    static predicate WellSized(rawProof: seq<(seq<bv8>, Side)>) {
      forall i | 0 <= i < |rawProof| :: |rawProof[i].0| == HASH_SIZE_BYTES
    }

    static function Parsed(rawProof: seq<(seq<bv8>, Side)>): (r: seq<ProofStep>)
      requires WellSized(rawProof)
      ensures |r| == |rawProof|
      ensures forall i | 0 <= i < |r| :: r[i].hash == rawProof[i].0 && r[i].side == rawProof[i].1
    {
      seq(|rawProof|, i requires 0 <= i < |rawProof| => ProofStep(rawProof[i].0, rawProof[i].1))
    }
  }
}
