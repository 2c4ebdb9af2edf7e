/** Merkle membership proofs: the verifier, and the shape of what it evaluates.

    A proof lists siblings from the leaf up to the root.  `Node` is the digest the fold arrives at;
    `TopPreimage` is the byte string hashed last, and `Trace` all byte strings hashed on the way.
    Leaf nodes hash 32 bytes and inner nodes 64, so a preimage tells which kind it is.
 */
module Merkle {
  import opened Digests
  import opened Hasher

  datatype ProofElement = Left(hash: Out) | Right(hash: Out) {
    // The preimage of the parent of a node and its sibling `this`.
    function Join(node: Out): (r: Bytes)
      ensures |r| == 2 * OUT_SIZE
    {
      match this
      case Left(a) => a + node
      case Right(b) => node + b
    }

    // Concatenate with the sibling in the proper order and hash.
    function Merge(h: HashFn, sibling: Out): Out {
      h(Join(sibling))
    }
  }

  // Merging is the structural hash of the ordered pair.
  lemma {:induction false} MergeHashesPair(h: HashFn, p: ProofElement, sibling: Out)
    ensures p.Merge(h, sibling) == match p
            case Left(a) => HashOf(h, Tuple([Ref(OutValue(a)), Ref(OutValue(sibling))]))
            case Right(b) => HashOf(h, Tuple([Ref(OutValue(sibling)), Ref(OutValue(b))]))
  {
    match p
    case Left(a) => PairFlattens(Ref(OutValue(a)), Ref(OutValue(sibling)));
    case Right(b) => PairFlattens(Ref(OutValue(sibling)), Ref(OutValue(b)));
  }

  type Proof = seq<ProofElement>

  function FoldMerge(h: HashFn, node: Out, proof: Proof): Out
    decreases |proof|
  {
    if proof == [] then node else FoldMerge(h, proof[0].Merge(h, node), proof[1..])
  }

  // The node a proof leads to from a leaf hash, which is hashed once more first.
  function Node(h: HashFn, leaf: Out, proof: Proof): Out {
    FoldMerge(h, h(leaf), proof)
  }

  // The fold starts from the structural hash of the leaf hash.
  lemma {:induction false} NodeHashesLeaf(h: HashFn, leaf: Out, proof: Proof)
    ensures Node(h, leaf, proof) == FoldMerge(h, HashOf(h, Hashed(OutValue(leaf))), proof)
  {
    assert Flatten(Hashed(OutValue(leaf))) == leaf;
  }

  predicate VerifyProof(h: HashFn, root: Out, proof: Proof, leaf: Out) {
    Node(h, leaf, proof) == root
  }

  // Read from the root

  function Init(proof: Proof): Proof
    requires proof != []
  {
    proof[..|proof| - 1]
  }

  function Last(proof: Proof): ProofElement
    requires proof != []
  {
    proof[|proof| - 1]
  }

  function TopPreimage(h: HashFn, leaf: Out, proof: Proof): (r: Bytes)
    ensures |r| == if proof == [] then OUT_SIZE else 2 * OUT_SIZE
  {
    if proof == [] then leaf else Last(proof).Join(Node(h, leaf, Init(proof)))
  }

  function Trace(h: HashFn, leaf: Out, proof: Proof): set<Bytes>
    decreases |proof|
  {
    {TopPreimage(h, leaf, proof)} + if proof == [] then {} else Trace(h, leaf, Init(proof))
  }

  lemma {:induction false} FoldMergeSnoc(h: HashFn, node: Out, proof: Proof)
    requires proof != []
    ensures FoldMerge(h, node, proof) == Last(proof).Merge(h, FoldMerge(h, node, Init(proof)))
    decreases |proof|
  {
    if |proof| > 1 {
      FoldMergeSnoc(h, proof[0].Merge(h, node), proof[1..]);
      assert Init(proof)[1..] == Init(proof[1..]);
    }
  }

  // The verifier's left fold ends with the digest of the top preimage.
  lemma {:induction false} NodeIsTopDigest(h: HashFn, leaf: Out, proof: Proof)
    ensures Node(h, leaf, proof) == h(TopPreimage(h, leaf, proof))
  {
    if proof == [] {
    } else {
      FoldMergeSnoc(h, h(leaf), proof);
    }
  }

  // The trace is what the fold hashes: the leaf hash, then each element joined with the node so far.
  lemma {:induction false} TraceIsFoldSteps(h: HashFn, leaf: Out, proof: Proof)
    ensures Trace(h, leaf, proof) == {leaf} + set k | 0 <= k < |proof| :: proof[k].Join(Node(h, leaf, proof[..k]))
    decreases |proof|
  {
    if proof == [] {
    } else {
      TraceIsFoldSteps(h, leaf, Init(proof));
      forall k | 0 <= k < |Init(proof)| ensures Init(proof)[k] == proof[k] && Init(proof)[..k] == proof[..k] {}
      assert TopPreimage(h, leaf, proof) == proof[|proof| - 1].Join(Node(h, leaf, proof[..|proof| - 1]));
    }
  }

  lemma JoinInjective(p: ProofElement, q: ProofElement, a: Out, b: Out)
    requires p.Join(a) == q.Join(b) && p.Left? == q.Left?
    ensures p == q && a == b
  {
    assert p.Join(a)[..OUT_SIZE] == q.Join(b)[..OUT_SIZE];
    assert p.Join(a)[OUT_SIZE..] == q.Join(b)[OUT_SIZE..];
    match p
    case Left(x) => assert p.Join(a) == x + a && q.Join(b) == q.hash + b;
    case Right(x) => assert p.Join(a) == a + x && q.Join(b) == b + q.hash;
  }

  // Directions from the root: a sibling on the left means the path turns right.

  datatype Turn = GoLeft | GoRight

  type Path = seq<Turn>

  function Directions(proof: Proof): (path: Path)
    ensures |path| == |proof|
    decreases |proof|
  {
    if proof == [] then []
    else [if Last(proof).Left? then GoRight else GoLeft] + Directions(Init(proof))
  }

  // Binding

  // Two proofs that lead to one node hash the same bytes last.
  lemma {:induction false} SameTop(h: HashFn, leaf: Out, proof: Proof, leaf': Out, proof': Proof)
    requires Node(h, leaf, proof) == Node(h, leaf', proof')
    requires CollisionFree(h, Trace(h, leaf, proof) + Trace(h, leaf', proof'))
    ensures TopPreimage(h, leaf, proof) == TopPreimage(h, leaf', proof')
    ensures proof == [] <==> proof' == []
  {
    NodeIsTopDigest(h, leaf, proof);
    NodeIsTopDigest(h, leaf', proof');
    assert TopPreimage(h, leaf, proof) in Trace(h, leaf, proof);
    assert TopPreimage(h, leaf', proof') in Trace(h, leaf', proof');
  }

  // If they also turn the same way there, they agree on that step.
  lemma {:induction false} SameStep(h: HashFn, leaf: Out, proof: Proof, leaf': Out, proof': Proof)
    requires proof != [] && proof' != [] && Last(proof).Left? == Last(proof').Left?
    requires TopPreimage(h, leaf, proof) == TopPreimage(h, leaf', proof')
    ensures Last(proof) == Last(proof')
    ensures Node(h, leaf, Init(proof)) == Node(h, leaf', Init(proof'))
    ensures Trace(h, leaf, Init(proof)) <= Trace(h, leaf, proof)
    ensures Trace(h, leaf', Init(proof')) <= Trace(h, leaf', proof')
  {
    JoinInjective(Last(proof), Last(proof'), Node(h, leaf, Init(proof)), Node(h, leaf', Init(proof')));
  }

  lemma PrefixStep(proof: Proof, proof': Proof)
    requires proof != [] && proof' != [] && Directions(proof) <= Directions(proof')
    ensures Last(proof).Left? == Last(proof').Left?
    ensures Directions(Init(proof)) <= Directions(Init(proof'))
  {
    assert Directions(proof)[0] == Directions(proof')[0];
    assert Directions(Init(proof)) == Directions(proof)[1..] <= Directions(proof')[1..] == Directions(Init(proof'));
  }

  // Under one node, a path opens to one leaf with one list of siblings, and no accepted path
  // extends another.
  lemma {:induction false} Binding(h: HashFn, leaf: Out, proof: Proof, leaf': Out, proof': Proof)
    requires Node(h, leaf, proof) == Node(h, leaf', proof')
    requires Directions(proof) <= Directions(proof')
    requires CollisionFree(h, Trace(h, leaf, proof) + Trace(h, leaf', proof'))
    ensures leaf == leaf' && proof == proof'
    decreases |proof|
  {
    SameTop(h, leaf, proof, leaf', proof');
    if proof == [] {
    } else {
      PrefixStep(proof, proof');
      SameStep(h, leaf, proof, leaf', proof');
      Binding(h, leaf, Init(proof), leaf', Init(proof'));
      assert proof == Init(proof) + [Last(proof)] && proof' == Init(proof') + [Last(proof')];
    }
  }

  // Roots that nothing opens

  // Some leaf hash among `leaves` opens `root` with at most `n` siblings.
  ghost predicate Openable(h: HashFn, root: Out, n: nat, leaves: iset<Out>)
    decreases n
  {
    (exists leaf: Out :: leaf in leaves && h(leaf) == root) ||
    (n > 0 && exists p: ProofElement, node: Out :: h(p.Join(node)) == root && Openable(h, node, n - 1, leaves))
  }

  lemma {:induction false} AcceptedImpliesOpenable(h: HashFn, root: Out, n: nat, leaves: iset<Out>,
                                                   leaf: Out, proof: Proof)
    requires VerifyProof(h, root, proof, leaf) && |proof| <= n && leaf in leaves
    ensures Openable(h, root, n, leaves)
    decreases n
  {
    NodeIsTopDigest(h, leaf, proof);
    if proof == [] {
    } else {
      AcceptedImpliesOpenable(h, Node(h, leaf, Init(proof)), n - 1, leaves, leaf, Init(proof));
      assert h(Last(proof).Join(Node(h, leaf, Init(proof)))) == root;
    }
  }

  lemma {:induction false} OpenableImpliesAccepted(h: HashFn, root: Out, n: nat, leaves: iset<Out>)
    returns (leaf: Out, proof: Proof)
    requires Openable(h, root, n, leaves)
    ensures VerifyProof(h, root, proof, leaf) && |proof| <= n && leaf in leaves
    decreases n
  {
    if x: Out :| x in leaves && h(x) == root {
      leaf, proof := x, [];
    } else {
      var p: ProofElement, node: Out :| h(p.Join(node)) == root && Openable(h, node, n - 1, leaves);
      var rest: Proof;
      leaf, rest := OpenableImpliesAccepted(h, node, n - 1, leaves);
      proof := rest + [p];
      assert Init(proof) == rest && Last(proof) == p;
    }
    NodeIsTopDigest(h, leaf, proof);
  }

  // Exactly when a root of any origin can be opened with a proof of at most `n` elements.
  lemma {:induction false} OpenableIff(h: HashFn, root: Out, n: nat, leaves: iset<Out>)
    ensures Openable(h, root, n, leaves)
       <==> exists leaf: Out, proof: Proof :: leaf in leaves && |proof| <= n && VerifyProof(h, root, proof, leaf)
  {
    if Openable(h, root, n, leaves) {
      var leaf, proof := OpenableImpliesAccepted(h, root, n, leaves);
    }
    forall leaf: Out, proof: Proof | leaf in leaves && |proof| <= n && VerifyProof(h, root, proof, leaf)
      ensures Openable(h, root, n, leaves)
    {
      AcceptedImpliesOpenable(h, root, n, leaves, leaf, proof);
    }
  }

  // No byte string as long as a node preimage hashes to `root`.
  lemma {:induction false} NothingOpens(h: HashFn, root: Out, proof: Proof, leaf: Out)
    requires forall x: Bytes | |x| == OUT_SIZE || |x| == 2 * OUT_SIZE :: h(x) != root
    ensures !VerifyProof(h, root, proof, leaf)
  {
    NodeIsTopDigest(h, leaf, proof);
  }
}
