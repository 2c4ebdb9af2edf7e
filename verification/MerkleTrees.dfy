/** Trees as the reference meaning of roots and proofs: generation, the prover, completeness, and
    soundness with a collision extractor.
 */
module MerkleTrees {
  import opened Digests
  import opened Hasher
  import opened Merkle

  datatype Option<T> = None | Some(value: T)

  datatype MTree = Leaf(hash: Out) | Tee(left: MTree, right: MTree)

  function RootHash(h: HashFn, t: MTree): Out {
    match t
    case Leaf(leaf) => h(leaf)
    case Tee(l, r) => h(RootHash(h, l) + RootHash(h, r))
  }

  // Roots are structural hashes of a leaf hash or of a pair of roots.
  lemma {:induction false} RootHashIsStructural(h: HashFn, t: MTree)
    ensures RootHash(h, t) == match t
            case Leaf(leaf) => HashOf(h, OutValue(leaf))
            case Tee(l, r) => HashOf(h, Tuple([OutValue(RootHash(h, l)), OutValue(RootHash(h, r))]))
  {
    if t.Leaf? {
    } else {
      PairFlattens(OutValue(RootHash(h, t.left)), OutValue(RootHash(h, t.right)));
    }
  }

  // What is hashed for the top node.
  function NodePreimage(h: HashFn, t: MTree): (r: Bytes)
    ensures |r| == if t.Leaf? then OUT_SIZE else 2 * OUT_SIZE
  {
    match t
    case Leaf(leaf) => leaf
    case Tee(l, r) => RootHash(h, l) + RootHash(h, r)
  }

  function TreePreimages(h: HashFn, t: MTree): set<Bytes> {
    {NodePreimage(h, t)} + if t.Leaf? then {} else TreePreimages(h, t.left) + TreePreimages(h, t.right)
  }

  lemma RootIsNodeDigest(h: HashFn, t: MTree)
    ensures RootHash(h, t) == h(NodePreimage(h, t))
  {}

  // Positions

  function Child(t: MTree, turn: Turn): (c: MTree)
    requires t.Tee?
    ensures c < t
  {
    if turn.GoLeft? then t.left else t.right
  }

  // The sibling of that child as a proof element.
  function SiblingOf(h: HashFn, t: MTree, turn: Turn): ProofElement
    requires t.Tee?
  {
    if turn.GoLeft? then Right(RootHash(h, t.right)) else Left(RootHash(h, t.left))
  }

  predicate LeafAt(t: MTree, path: Path, leaf: Out)
    decreases |path|
  {
    if path == [] then t == Leaf(leaf)
    else t.Tee? && LeafAt(Child(t, path[0]), path[1..], leaf)
  }

  predicate SubtreeAt(t: MTree, path: Path, sub: MTree)
    decreases |path|
  {
    if path == [] then t == sub
    else t.Tee? && SubtreeAt(Child(t, path[0]), path[1..], sub)
  }

  lemma {:induction false} LeafIsSubtree(t: MTree, path: Path, leaf: Out)
    ensures LeafAt(t, path, leaf) <==> SubtreeAt(t, path, Leaf(leaf))
    decreases |path|
  {
    if path != [] && t.Tee? { LeafIsSubtree(Child(t, path[0]), path[1..], leaf); }
  }

  lemma {:induction false} PreimageHasSubtree(h: HashFn, t: MTree, x: Bytes) returns (path: Path, sub: MTree)
    requires x in TreePreimages(h, t)
    ensures SubtreeAt(t, path, sub) && x == NodePreimage(h, sub)
    decreases t
  {
    if x == NodePreimage(h, t) {
      path, sub := [], t;
    } else {
      var turn := if x in TreePreimages(h, t.left) then GoLeft else GoRight;
      var rest: Path;
      rest, sub := PreimageHasSubtree(h, Child(t, turn), x);
      path := [turn] + rest;
      assert path[1..] == rest;
    }
  }

  lemma {:induction false} SubtreeHasPreimage(h: HashFn, t: MTree, path: Path, sub: MTree)
    requires SubtreeAt(t, path, sub)
    ensures NodePreimage(h, sub) in TreePreimages(h, t)
    decreases |path|
  {
    if path == [] {
    } else {
      SubtreeHasPreimage(h, Child(t, path[0]), path[1..], sub);
    }
  }

  // A tree's preimages are exactly those of its subtrees' top nodes.
  lemma {:induction false} TreePreimagesAre(h: HashFn, t: MTree, x: Bytes)
    ensures x in TreePreimages(h, t) ==>
              exists path, sub :: SubtreeAt(t, path, sub)
                               && x == match sub { case Leaf(y) => y case Tee(l, r) => RootHash(h, l) + RootHash(h, r) }
    ensures forall path, sub | SubtreeAt(t, path, sub) ::
              match sub { case Leaf(y) => y case Tee(l, r) => RootHash(h, l) + RootHash(h, r) } in TreePreimages(h, t)
  {
    if x in TreePreimages(h, t) {
      var path, sub := PreimageHasSubtree(h, t, x);
      assert SubtreeAt(t, path, sub);
    }
    forall path, sub | SubtreeAt(t, path, sub) ensures NodePreimage(h, sub) in TreePreimages(h, t) {
      SubtreeHasPreimage(h, t, path, sub);
    }
  }

  // The proof for a path, leaf first.
  function ProofAt(h: HashFn, t: MTree, path: Path): Proof
    decreases |path|
  {
    if path == [] || t.Leaf? then []
    else ProofAt(h, Child(t, path[0]), path[1..]) + [SiblingOf(h, t, path[0])]
  }

  ghost predicate Occurs(t: MTree, leaf: Out, maxDepth: nat) {
    exists path :: |path| <= maxDepth && LeafAt(t, path, leaf)
  }

  // Completeness

  lemma {:induction false} ProofAtInit(h: HashFn, t: MTree, path: Path)
    requires path != [] && t.Tee?
    ensures ProofAt(h, t, path) != []
    ensures Init(ProofAt(h, t, path)) == ProofAt(h, Child(t, path[0]), path[1..])
    ensures Last(ProofAt(h, t, path)) == SiblingOf(h, t, path[0])
  {
    assert ProofAt(h, t, path) == ProofAt(h, Child(t, path[0]), path[1..]) + [SiblingOf(h, t, path[0])];
  }

  lemma SiblingJoins(h: HashFn, t: MTree, turn: Turn)
    requires t.Tee?
    ensures SiblingOf(h, t, turn).Join(RootHash(h, Child(t, turn))) == NodePreimage(h, t)
    ensures SiblingOf(h, t, turn).Left? <==> turn == GoRight
  {}

  lemma {:induction false} ProofAtStep(h: HashFn, t: MTree, path: Path, leaf: Out)
    requires path != [] && t.Tee?
    requires VerifyProof(h, RootHash(h, Child(t, path[0])), ProofAt(h, Child(t, path[0]), path[1..]), leaf)
    requires Directions(ProofAt(h, Child(t, path[0]), path[1..])) == path[1..]
    ensures Init(ProofAt(h, t, path)) == ProofAt(h, Child(t, path[0]), path[1..])
    ensures TopPreimage(h, leaf, ProofAt(h, t, path)) == NodePreimage(h, t)
    ensures Directions(ProofAt(h, t, path)) == path
  {
    ProofAtInit(h, t, path);
    SiblingJoins(h, t, path[0]);
    assert path == [path[0]] + path[1..];
  }

  lemma {:induction false} ProofAtVerifies(h: HashFn, t: MTree, path: Path, leaf: Out)
    requires LeafAt(t, path, leaf)
    ensures VerifyProof(h, RootHash(h, t), ProofAt(h, t, path), leaf)
    ensures |ProofAt(h, t, path)| == |path| && Directions(ProofAt(h, t, path)) == path
    ensures Trace(h, leaf, ProofAt(h, t, path)) <= TreePreimages(h, t)
    decreases |path|
  {
    RootIsNodeDigest(h, t);
    NodeIsTopDigest(h, leaf, ProofAt(h, t, path));
    if path == [] {
    } else {
      ProofAtVerifies(h, Child(t, path[0]), path[1..], leaf);
      ProofAtStep(h, t, path, leaf);
    }
  }

  // Soundness

  // Compare the verifier's preimages with the tree's, from the root down.
  function Extract(h: HashFn, t: MTree, proof: Proof, leaf: Out): Option<(Bytes, Bytes)>
    decreases |proof|
  {
    var x, y := NodePreimage(h, t), TopPreimage(h, leaf, proof);
    if x != y then Some((x, y))
    else if proof == [] || t.Leaf? then None
    else Extract(h, Child(t, Directions(proof)[0]), Init(proof), leaf)
  }

  // An accepted proof either is the tree's own proof for that leaf, or the extractor returns two
  // different byte strings with one digest, one hashed by the tree and one by the verifier.
  lemma {:induction false} Soundness(h: HashFn, t: MTree, proof: Proof, leaf: Out)
    requires VerifyProof(h, RootHash(h, t), proof, leaf)
    ensures match Extract(h, t, proof, leaf)
            case None => LeafAt(t, Directions(proof), leaf) && proof == ProofAt(h, t, Directions(proof))
            case Some((x, y)) => x != y && h(x) == h(y) && x in TreePreimages(h, t) && y in Trace(h, leaf, proof)
    decreases |proof|
  {
    RootIsNodeDigest(h, t);
    NodeIsTopDigest(h, leaf, proof);
    if NodePreimage(h, t) == TopPreimage(h, leaf, proof) && proof != [] {
      var turn := Directions(proof)[0];
      SiblingJoins(h, t, turn);
      JoinInjective(SiblingOf(h, t, turn), Last(proof), RootHash(h, Child(t, turn)), Node(h, leaf, Init(proof)));
      Soundness(h, Child(t, turn), Init(proof), leaf);
      OpeningStep(h, t, proof, leaf);
    }
  }

  // A proof that starts with the tree's sibling opens the tree if the rest opens the child.
  lemma {:induction false} OpeningStep(h: HashFn, t: MTree, proof: Proof, leaf: Out)
    requires t.Tee? && proof != [] && Last(proof) == SiblingOf(h, t, Directions(proof)[0])
    ensures LeafAt(Child(t, Directions(proof)[0]), Directions(Init(proof)), leaf) ==> LeafAt(t, Directions(proof), leaf)
    ensures Init(proof) == ProofAt(h, Child(t, Directions(proof)[0]), Directions(Init(proof)))
        ==> proof == ProofAt(h, t, Directions(proof))
  {
    assert Directions(proof)[1..] == Directions(Init(proof));
    assert proof == Init(proof) + [Last(proof)];
  }

  // The extractor raises no false alarm on the tree's own proofs.
  lemma {:induction false} NoFalseAlarm(h: HashFn, t: MTree, path: Path, leaf: Out)
    requires LeafAt(t, path, leaf)
    ensures Extract(h, t, ProofAt(h, t, path), leaf) == None
    decreases |path|
  {
    if path == [] {
    } else {
      ProofAtVerifies(h, Child(t, path[0]), path[1..], leaf);
      ProofAtStep(h, t, path, leaf);
      NoFalseAlarm(h, Child(t, path[0]), path[1..], leaf);
    }
  }

  // Without collisions the verifier accepts exactly the tree's own proofs.
  lemma {:induction false} VerifyIff(h: HashFn, t: MTree, proof: Proof, leaf: Out)
    requires CollisionFree(h, TreePreimages(h, t) + Trace(h, leaf, proof))
    ensures VerifyProof(h, RootHash(h, t), proof, leaf)
       <==> LeafAt(t, Directions(proof), leaf) && proof == ProofAt(h, t, Directions(proof))
  {
    if VerifyProof(h, RootHash(h, t), proof, leaf) {
      Soundness(h, t, proof, leaf);
    }
    if LeafAt(t, Directions(proof), leaf) {
      ProofAtVerifies(h, t, Directions(proof), leaf);
    }
  }

  // A leaf hash has a proof of at most `n` elements, found without a collision, exactly when it
  // occurs in the tree at depth at most `n`.
  lemma {:induction false} MembershipIff(h: HashFn, t: MTree, leaf: Out, n: nat)
    requires CollisionFree(h, TreePreimages(h, t))
    ensures Occurs(t, leaf, n)
       <==> exists proof :: |proof| <= n && VerifyProof(h, RootHash(h, t), proof, leaf)
                         && CollisionFree(h, TreePreimages(h, t) + Trace(h, leaf, proof))
  {
    if path :| |path| <= n && LeafAt(t, path, leaf) {
      ProofAtVerifies(h, t, path, leaf);
      assert TreePreimages(h, t) + Trace(h, leaf, ProofAt(h, t, path)) == TreePreimages(h, t);
    }
    forall proof | |proof| <= n && VerifyProof(h, RootHash(h, t), proof, leaf)
                && CollisionFree(h, TreePreimages(h, t) + Trace(h, leaf, proof))
      ensures Occurs(t, leaf, n)
    {
      VerifyIff(h, t, proof, leaf);
    }
  }

  // Trees over accounts or documents

  // Replace every leaf by its digest.
  function HashLeaves(h: HashFn, t: MTree): MTree {
    match t
    case Leaf(preimage) => Leaf(h(preimage))
    case Tee(l, r) => Tee(HashLeaves(h, l), HashLeaves(h, r))
  }

  function LeafSet(t: MTree): set<Out> {
    match t
    case Leaf(x) => {x}
    case Tee(l, r) => LeafSet(l) + LeafSet(r)
  }

  lemma {:induction false} HashLeavesKeeps(h: HashFn, t: MTree, path: Path, x: Out)
    requires LeafAt(t, path, x)
    ensures LeafAt(HashLeaves(h, t), path, h(x))
    decreases |path|
  {
    if path == [] {
    } else {
      HashLeavesKeeps(h, Child(t, path[0]), path[1..], x);
    }
  }

  lemma {:induction false} HashLeavesAt(h: HashFn, t: MTree, path: Path, x: Out)
    requires CollisionFree(h, LeafSet(t) + {x})
    ensures LeafAt(HashLeaves(h, t), path, h(x)) <==> LeafAt(t, path, x)
    decreases |path|
  {
    if path != [] && t.Tee? {
      HashLeavesAt(h, Child(t, path[0]), path[1..], x);
    } else if path == [] && t.Leaf? {
      assert t.hash in LeafSet(t);
    }
  }

  // The prover

  // A `Vec` passed by mutable reference.
  class ProofBuffer {
    var items: Proof

    constructor ()
      ensures items == []
    {
      items := [];
    }

    method Push(p: ProofElement)
      modifies this
      ensures items == old(items) + [p]
    {
      items := items + [p];
    }

    method Reverse()
      modifies this
      ensures items == Reversed(old(items))
    {
      items := Reversed(items);
    }
  }

  function Reversed(s: Proof): (r: Proof)
    ensures |r| == |s| && forall i | 0 <= i < |s| :: r[i] == s[|s| - 1 - i]
  {
    seq(|s|, i requires 0 <= i < |s| => s[|s| - 1 - i])
  }

  // A stream of coin flips; heads goes left.
  type Coins = nat -> bool

  function Drop(coins: Coins): Coins {
    (i: nat) => coins(i + 1)
  }

  // Where the coins lead.
  function DrawnPath(t: MTree, coins: Coins): Path {
    match t
    case Leaf(_) => []
    case Tee(l, r) => if coins(0) then [GoLeft] + DrawnPath(l, Drop(coins)) else [GoRight] + DrawnPath(r, Drop(coins))
  }

  method Rp(h: HashFn, tree: MTree, coins: Coins, ret: ProofBuffer) returns (leaf: Out)
    modifies ret
    ensures LeafAt(tree, DrawnPath(tree, coins), leaf)
    ensures ret.items == old(ret.items) + Reversed(ProofAt(h, tree, DrawnPath(tree, coins)))
    decreases tree
  {
    match tree {
      case Leaf(hash) =>
        leaf := hash;
        assert Reversed(ProofAt(h, tree, [])) == [];
      case Tee(left, right) =>
        DrawnStep(h, tree, coins);
        if coins(0) {
          ret.Push(Right(RootHash(h, right)));
          leaf := Rp(h, left, Drop(coins), ret);
        } else {
          ret.Push(Left(RootHash(h, left)));
          leaf := Rp(h, right, Drop(coins), ret);
        }
    }
  }

  lemma {:induction false} DrawnStep(h: HashFn, t: MTree, coins: Coins)
    requires t.Tee?
    ensures var turn := if coins(0) then GoLeft else GoRight;
            var rest := DrawnPath(Child(t, turn), Drop(coins));
            && DrawnPath(t, coins) == [turn] + rest && DrawnPath(t, coins)[1..] == rest
            && Reversed(ProofAt(h, t, DrawnPath(t, coins)))
            == [SiblingOf(h, t, turn)] + Reversed(ProofAt(h, Child(t, turn), rest))
  {
    var turn := if coins(0) then GoLeft else GoRight;
    assert DrawnPath(t, coins)[1..] == DrawnPath(Child(t, turn), Drop(coins));
    ProofAtInit(h, t, DrawnPath(t, coins));
  }

  // The leaf and the proof for the path the coins draw; the verifier accepts it.
  method RandomProof(h: HashFn, tree: MTree, coins: Coins) returns (proof: Proof, leaf: Out)
    ensures LeafAt(tree, DrawnPath(tree, coins), leaf)
    ensures proof == ProofAt(h, tree, DrawnPath(tree, coins))
    ensures |proof| == |DrawnPath(tree, coins)|
    ensures VerifyProof(h, RootHash(h, tree), proof, leaf)
  {
    var ret := new ProofBuffer();
    leaf := Rp(h, tree, coins, ret);
    assert ret.items == Reversed(ProofAt(h, tree, DrawnPath(tree, coins)));
    ret.Reverse();
    proof := ret.items;
    assert proof == ProofAt(h, tree, DrawnPath(tree, coins));
    ProofAtVerifies(h, tree, DrawnPath(tree, coins), leaf);
  }

  // Every path to a leaf is drawn by some coins, so the prover covers every position.
  lemma {:induction false} EveryPathIsDrawn(t: MTree, path: Path, leaf: Out, coins: Coins)
    requires LeafAt(t, path, leaf)
    requires forall i: nat | i < |path| :: coins(i) == path[i].GoLeft?
    ensures DrawnPath(t, coins) == path
    decreases |path|
  {
    if path == [] {
    } else {
      EveryPathIsDrawn(Child(t, path[0]), path[1..], leaf, Drop(coins));
      assert path == [path[0]] + path[1..];
    }
  }

  // Generated trees

  function Pow2(n: nat): (r: nat)
    ensures r > 0
  {
    if n == 0 then 1 else 2 * Pow2(n - 1)
  }

  // `random` supplies the leaves; `drawn` counts how many have been used.
  function Generate(depth: nat, random: nat -> Out, drawn: nat): (r: (MTree, nat))
    decreases depth
  {
    if depth == 0 then (Leaf(random(drawn)), drawn + 1)
    else
      var (l, drawn') := Generate(depth - 1, random, drawn);
      var (r, drawn'') := Generate(depth - 1, random, drawn');
      (Tee(l, r), drawn'')
  }

  predicate Perfect(t: MTree, depth: nat) {
    match t
    case Leaf(_) => depth == 0
    case Tee(l, r) => depth > 0 && Perfect(l, depth - 1) && Perfect(r, depth - 1)
  }

  function NodeCount(t: MTree): nat {
    match t
    case Leaf(_) => 1
    case Tee(l, r) => 1 + NodeCount(l) + NodeCount(r)
  }

  function Leaves(t: MTree): seq<Out> {
    match t
    case Leaf(x) => [x]
    case Tee(l, r) => Leaves(l) + Leaves(r)
  }

  lemma {:induction false} GeneratedTree(depth: nat, random: nat -> Out, drawn: nat)
    ensures var (t, drawn') := Generate(depth, random, drawn);
            Perfect(t, depth) && NodeCount(t) == Pow2(depth + 1) - 1 && |Leaves(t)| == Pow2(depth) &&
            drawn' == drawn + Pow2(depth) &&
            forall i: nat | i < Pow2(depth) :: Leaves(t)[i] == random(drawn + i)
    decreases depth
  {
    if depth == 0 {
    } else {
      GeneratedTree(depth - 1, random, drawn);
      GeneratedTree(depth - 1, random, drawn + Pow2(depth - 1));
    }
  }

  // Every proof taken from a perfect tree has exactly its depth.
  lemma {:induction false} PerfectDepth(t: MTree, depth: nat, path: Path, leaf: Out)
    requires Perfect(t, depth) && LeafAt(t, path, leaf)
    ensures |path| == depth
    decreases depth
  {
    if depth == 0 {
    } else {
      PerfectDepth(Child(t, path[0]), depth - 1, path[1..], leaf);
    }
  }

  lemma {:induction false} LeafHasPath(t: MTree, leaf: Out) returns (path: Path)
    requires leaf in LeafSet(t)
    ensures LeafAt(t, path, leaf)
    decreases t
  {
    match t
    case Leaf(_) => path := [];
    case Tee(l, r) =>
      var turn := if leaf in LeafSet(l) then GoLeft else GoRight;
      var rest := LeafHasPath(Child(t, turn), leaf);
      path := [turn] + rest;
  }

  lemma {:induction false} PathHasLeaf(t: MTree, path: Path, leaf: Out)
    requires LeafAt(t, path, leaf)
    ensures leaf in LeafSet(t)
    decreases t
  {
    match t
    case Leaf(_) =>
    case Tee(l, r) => PathHasLeaf(Child(t, path[0]), path[1..], leaf);
  }

  // The leaf set is what can be reached.
  lemma {:induction false} LeafSetIs(t: MTree, x: Out)
    ensures x in LeafSet(t) ==> exists path :: LeafAt(t, path, x)
    ensures (exists path :: LeafAt(t, path, x)) ==> x in LeafSet(t)
  {
    if x in LeafSet(t) {
      var path := LeafHasPath(t, x);
      assert LeafAt(t, path, x);
    }
    forall path | LeafAt(t, path, x) ensures x in LeafSet(t) {
      PathHasLeaf(t, path, x);
    }
  }

  // A leaf hash of a perfect tree is within reach of a proof limit exactly when the tree is.
  lemma {:induction false} PerfectReach(t: MTree, depth: nat, leaf: Out, limit: nat)
    requires Perfect(t, depth) && leaf in LeafSet(t)
    ensures Occurs(t, leaf, limit) <==> depth <= limit
  {
    var path := LeafHasPath(t, leaf);
    PerfectDepth(t, depth, path, leaf);
    forall other | LeafAt(t, other, leaf) ensures |other| == depth {
      PerfectDepth(t, depth, other, leaf);
    }
  }
}
